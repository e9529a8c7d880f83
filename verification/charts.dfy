/**
 The counting pass of `update_graphs`: one walk over the log that builds, per habit, the
 number of rows in the selected month (`monthly_progress`) and the number of rows at most
 three days old (`last_3_days`, and again `momentum`), followed by the values the three
 charts read off those maps.
 */
module Charts {
  import opened Wrappers
  import opened Calendar
  import opened DateText
  import opened Habits
  import opened Stats

  /** A Python dict from habit name to a count; `AllPositive` says no count is zero. */
  type Counts = map<string, nat>

  /** `counts.get(name, 0)`. */
  function Get(counts: Counts, name: string): nat {
    if name in counts then counts[name] else 0
  }

  /** `counts[name] = counts.get(name, 0) + 1`. */
  function Bump(counts: Counts, name: string): (r: Counts)
    ensures r.Keys == counts.Keys + {name}
    ensures Get(r, name) == Get(counts, name) + 1
    ensures forall other :: other != name ==> Get(r, other) == Get(counts, other)
  {
    counts[name := Get(counts, name) + 1]
  }

  /** No habit is stored with a zero count. */
  predicate AllPositive(counts: Counts) {
    forall name :: name in counts ==> counts[name] > 0
  }

  /**
   `(datetime.now() - date).days` for a row date at midnight: the number of whole days
   from the row's date to today, negative for a date after today.
   */
  function DaysAgo(today: CalendarDate, d: CalendarDate): (n: int)
    ensures n == 0 <==> d == today
    ensures n > 0 <==> Before(d, today)
    ensures n < 0 <==> Before(today, d)
  {
    OrdinalOrder(d, today);
    OrdinalOrder(today, d);
    Ordinal(today) - Ordinal(d)
  }

  /** The age, in days, up to which a row counts towards the last-days charts. */
  const RecentDays := 3

  /** `days_ago <= 3`: the row is at most three days old, or dated today or later. */
  predicate IsRecent(today: CalendarDate, d: CalendarDate): (b: bool)
    ensures b <==> Ordinal(d) + RecentDays >= Ordinal(today)
    ensures !Before(d, today) ==> b
  {
    DaysAgo(today, d) <= RecentDays
  }

  /** `date.month == m and date.year == y`: the row's date is one of the grid's days. */
  predicate InMonth(d: CalendarDate, y: int, m: int): (b: bool)
    ensures b ==> 1 <= m <= 12 && 1 <= d.day <= MonthLength(y, m)
    ensures b && DisplayableMonth(y, m) ==> d.day <= DaysInMonth(y, m) && d == MonthDay(y, m, d.day)
  {
    d.year == y && d.month == m
  }

  datatype ChartCounts = ChartCounts(monthly: Counts, lastThreeDays: Counts, momentum: Counts)

  /**
   The three maps after the loop has read the rows of log in order; rows with an empty
   habit are skipped.
   */
  function CountRows(log: seq<Row>, today: CalendarDate, y: int, m: int): (c: ChartCounts)
    ensures c.lastThreeDays == c.momentum
    ensures AllPositive(c.monthly) && AllPositive(c.lastThreeDays)
    ensures "" !in c.monthly && "" !in c.lastThreeDays
    decreases |log|
  {
    if log == [] then ChartCounts(map[], map[], map[])
    else
      var before := CountRows(log[..|log| - 1], today, y, m);
      var row := log[|log| - 1];
      if row.habit == "" then before
      else
        ChartCounts(
          if InMonth(row.date, y, m) then Bump(before.monthly, row.habit) else before.monthly,
          if IsRecent(today, row.date) then Bump(before.lastThreeDays, row.habit) else before.lastThreeDays,
          if IsRecent(today, row.date) then Bump(before.momentum, row.habit) else before.momentum)
  }

  /** The rows of a habit dated in month (y, m), by index: what the monthly count counts. */
  ghost function MonthRows(log: seq<Row>, name: string, y: int, m: int): set<int> {
    set i | 0 <= i < |log| && log[i].habit == name && InMonth(log[i].date, y, m)
  }

  /** The rows of a habit at most three days old, by index. */
  ghost function RecentRows(log: seq<Row>, name: string, today: CalendarDate): set<int> {
    set i | 0 <= i < |log| && log[i].habit == name && IsRecent(today, log[i].date)
  }

  lemma MonthRowsStep(log: seq<Row>, name: string, y: int, m: int)
    requires log != []
    ensures var n := |log| - 1;
            var last := if log[n].habit == name && InMonth(log[n].date, y, m) then {n} else {};
            n !in MonthRows(log[..n], name, y, m)
            && MonthRows(log, name, y, m) == MonthRows(log[..n], name, y, m) + last
  {
  }

  lemma RecentRowsStep(log: seq<Row>, name: string, today: CalendarDate)
    requires log != []
    ensures var n := |log| - 1;
            var last := if log[n].habit == name && IsRecent(today, log[n].date) then {n} else {};
            n !in RecentRows(log[..n], name, today)
            && RecentRows(log, name, today) == RecentRows(log[..n], name, today) + last
  {
  }

  /**
   Each non-empty habit's monthly count is the number of its rows dated in the selected
   month, duplicates included, and its last-three-days count the number of its rows at
   most three days old.
   */
  lemma {:induction false} CountRowsCounts(log: seq<Row>, today: CalendarDate, y: int, m: int, name: string)
    requires name != ""
    ensures Get(CountRows(log, today, y, m).monthly, name) == |MonthRows(log, name, y, m)|
    ensures Get(CountRows(log, today, y, m).lastThreeDays, name) == |RecentRows(log, name, today)|
    decreases |log|
  {
    if log == [] {
      assert MonthRows(log, name, y, m) == {};
      assert RecentRows(log, name, today) == {};
    } else {
      var n := |log| - 1;
      CountRowsCounts(log[..n], today, y, m, name);
      MonthRowsStep(log, name, y, m);
      RecentRowsStep(log, name, today);
    }
  }

  /**
   A habit appears in `last_3_days` (and in `momentum`) exactly when it is non-empty and
   has a row at most three days old, and in `monthly_progress` exactly when it has a row
   in the selected month.
   */
  lemma CountRowsKeys(log: seq<Row>, today: CalendarDate, y: int, m: int, name: string)
    ensures name in CountRows(log, today, y, m).lastThreeDays <==>
              name != "" && exists i :: 0 <= i < |log| && log[i].habit == name && IsRecent(today, log[i].date)
    ensures name in CountRows(log, today, y, m).monthly <==>
              name != "" && exists i :: 0 <= i < |log| && log[i].habit == name && InMonth(log[i].date, y, m)
  {
    if name != "" {
      var c := CountRows(log, today, y, m);
      CountRowsCounts(log, today, y, m, name);
      if name in c.lastThreeDays {
        var rows := RecentRows(log, name, today);
        assert rows != {};
        var i :| i in rows;
      }
      if name in c.monthly {
        var rows := MonthRows(log, name, y, m);
        assert rows != {};
        var i :| i in rows;
      }
    }
  }

  /** A row dated after today has a negative age and is counted in the last-days charts. */
  lemma FutureRowsCounted(today: CalendarDate, d: CalendarDate)
    requires Before(today, d)
    ensures DaysAgo(today, d) < 0
    ensures IsRecent(today, d)
  {
    OrdinalOrder(today, d);
  }

  /**
   The window in calendar terms: a row is recent exactly when its date is not before the
   day three days before today.
   */
  lemma RecentWindow(today: CalendarDate, d: CalendarDate)
    requires Ordinal(today) > RecentDays
    ensures var first := DayBefore(DayBefore(DayBefore(today)));
            Ordinal(first) + RecentDays == Ordinal(today)
            && (IsRecent(today, d) <==> !Before(d, first))
  {
    var first := DayBefore(DayBefore(DayBefore(today)));
    OrdinalOrder(d, first);
  }

  /**
   A repeated (habit, date) row still adds one to the monthly count, while the grid's
   count for that habit stays the same.
   */
  lemma DuplicateRowCounted(log: seq<Row>, row: Row, today: CalendarDate)
    requires row.habit != ""
    requires IsMarked(log, row.habit, FormatDate(row.date))
    requires DisplayableMonth(row.date.year, row.date.month)
    ensures var y, m := row.date.year, row.date.month;
            && Get(CountRows(log + [row], today, y, m).monthly, row.habit) ==
                 Get(CountRows(log, today, y, m).monthly, row.habit) + 1
            && GridCompleted(log + [row], row.habit, y, m) == GridCompleted(log, row.habit, y, m)
  {
    var y, m := row.date.year, row.date.month;
    assert (log + [row])[..|log|] == log;
    DuplicateRowCollapses(log, row);
  }

  /** Appending a row adds its (habit, date text) pair to the completion keys, unless the habit is empty. */
  lemma AppendKeys(prefix: seq<Row>, row: Row)
    ensures CompletionKeys(prefix + [row]) ==
              CompletionKeys(prefix) + (if row.habit == "" then {} else {(row.habit, FormatDate(row.date))})
  {
    var after := CompletionKeys(prefix + [row]);
    var added: set<(string, string)> := if row.habit == "" then {} else {(row.habit, FormatDate(row.date))};
    forall k
      ensures k in after <==> k in CompletionKeys(prefix) + added
    {
      AppendMarksAt(prefix, row, k.0, k.1);
    }
  }

  /** The grid count of a habit once the key of a new row joins the completion keys. */
  lemma CheckedDaysAddRow(before: set<(string, string)>, row: Row, name: string, y: int, m: int)
    requires DisplayableMonth(y, m) && name != ""
    requires (row.habit, FormatDate(row.date)) !in before
    ensures var added: set<(string, string)> := if row.habit == "" then {} else {(row.habit, FormatDate(row.date))};
            |CheckedDays(before + added, name, y, m)| ==
              |CheckedDays(before, name, y, m)| + (if row.habit == name && InMonth(row.date, y, m) then 1 else 0)
  {
    var added: set<(string, string)> := if row.habit == "" then {} else {(row.habit, FormatDate(row.date))};
    if row.habit == "" {
      assert before + added == before;
    } else if row.habit != name {
      CheckedDaysOtherKey(before, (row.habit, FormatDate(row.date)), name, y, m);
    } else {
      CheckedDaysNewKey(before, name, row.date, y, m);
      if InMonth(row.date, y, m) {
        assert row.date.day !in CheckedDays(before, name, y, m);
      }
    }
  }

  /** Appending a row not yet marked adds one to the grid count of its habit in its month. */
  lemma GridStep(prefix: seq<Row>, row: Row, name: string, y: int, m: int)
    requires DisplayableMonth(y, m) && name != ""
    requires NoDuplicateKeys(prefix + [row])
    ensures GridCompleted(prefix + [row], name, y, m) ==
              GridCompleted(prefix, name, y, m) + (if row.habit == name && InMonth(row.date, y, m) then 1 else 0)
  {
    AppendKeys(prefix, row);
    NewRowNotMarked(prefix, row);
    CheckedDaysAddRow(CompletionKeys(prefix), row, name, y, m);
  }

  /**
   When no (habit, date) pair is logged twice, which is what marking keeps, the monthly
   count of the charts equals the count shown in the habit's row of the grid.
   */
  lemma {:induction false} MonthlyMatchesGrid(log: seq<Row>, today: CalendarDate, y: int, m: int, name: string)
    requires DisplayableMonth(y, m) && name != ""
    requires NoDuplicateKeys(log)
    ensures Get(CountRows(log, today, y, m).monthly, name) == GridCompleted(log, name, y, m)
    decreases |log|
  {
    if log == [] {
      assert CheckedDays(CompletionKeys(log), name, y, m) == {};
    } else {
      var n := |log| - 1;
      var prefix, row := log[..n], log[n];
      assert log == prefix + [row];
      assert NoDuplicateKeys(prefix);
      MonthlyMatchesGrid(prefix, today, y, m, name);
      GridStep(prefix, row, name, y, m);
    }
  }

  lemma NewRowNotMarked(prefix: seq<Row>, row: Row)
    requires NoDuplicateKeys(prefix + [row])
    ensures !IsMarked(prefix, row.habit, FormatDate(row.date))
  {
    var log := prefix + [row];
    IsMarkedOnDate(prefix, row.habit, row.date);
    forall i | 0 <= i < |prefix| && prefix[i].habit == row.habit
      ensures prefix[i].date != row.date
    {
      assert log[i] == prefix[i] && log[|prefix|] == row;
    }
  }

  // ---------------------------------------------------------------------------
  // What the charts read off the counts

  /**
   The bar colour of the monthly chart, from the exact percentage completed / goal * 100
   (0 for a goal that is not positive): below 30, below 70, or at least 70.
   */
  function ChartBand(completed: nat, goal: int): (b: Band)
    ensures goal <= 0 ==> b == Danger
    ensures goal > 0 ==> (b == Danger <==> 100 * completed < 30 * goal)
    ensures goal > 0 ==> (b == Success <==> 100 * completed >= 70 * goal)
  {
    if goal <= 0 || 100 * completed < 30 * goal then Danger
    else if 100 * completed < 70 * goal then Warning
    else Success
  }

  /** The chart's bar colour agrees with the colour of the grid's truncated percentage. */
  lemma ChartBandMatchesGrid(completed: nat, goal: int)
    ensures ChartBand(completed, goal) == ProgressBand(Progress(completed, goal))
  {
    BandOfCounts(completed, goal);
  }

  datatype Bar = Bar(name: string, count: nat, band: Band)

  /**
   What the three charts are drawn from; None where a chart is left empty. The monthly
   and last-three-days charts have one entry per registered habit, in registry order;
   the momentum pie one wedge per habit with a recent row.
   */
  datatype ChartsView = ChartsView(monthly: Option<seq<Bar>>, lastThreeDays: Option<seq<nat>>, momentum: Option<Counts>)

  /** Whether some row of a non-empty habit lies in month (y, m) (resp. is recent). */
  predicate SomeRowInMonth(log: seq<Row>, y: int, m: int) {
    exists i :: 0 <= i < |log| && log[i].habit != "" && InMonth(log[i].date, y, m)
  }

  predicate SomeRecentRow(log: seq<Row>, today: CalendarDate) {
    exists i :: 0 <= i < |log| && log[i].habit != "" && IsRecent(today, log[i].date)
  }

  lemma EmptyCounts(log: seq<Row>, today: CalendarDate, y: int, m: int)
    ensures CountRows(log, today, y, m).monthly == map[] <==> !SomeRowInMonth(log, y, m)
    ensures CountRows(log, today, y, m).lastThreeDays == map[] <==> !SomeRecentRow(log, today)
  {
    var c := CountRows(log, today, y, m);
    if SomeRowInMonth(log, y, m) {
      var i :| 0 <= i < |log| && log[i].habit != "" && InMonth(log[i].date, y, m);
      CountRowsKeys(log, today, y, m, log[i].habit);
    }
    if SomeRecentRow(log, today) {
      var i :| 0 <= i < |log| && log[i].habit != "" && IsRecent(today, log[i].date);
      CountRowsKeys(log, today, y, m, log[i].habit);
    }
    if c.monthly != map[] {
      var h :| h in c.monthly;
      CountRowsKeys(log, today, y, m, h);
    }
    if c.lastThreeDays != map[] {
      var h :| h in c.lastThreeDays;
      CountRowsKeys(log, today, y, m, h);
    }
  }

  /** The charts of `update_graphs` for the registry and log, today, and month (y, m). */
  function DrawCharts(habits: seq<Habit>, log: seq<Row>, today: CalendarDate, y: int, m: int): (v: ChartsView)
    ensures v.monthly.Some? <==> habits != [] && SomeRowInMonth(log, y, m)
    ensures v.lastThreeDays.Some? <==> habits != [] && SomeRecentRow(log, today)
    ensures v.momentum.Some? <==> SomeRecentRow(log, today)
    ensures v.monthly.Some? ==> |v.monthly.value| == |habits|
    ensures v.monthly.Some? ==> forall i :: 0 <= i < |habits| && habits[i].name != "" ==>
              var bar := v.monthly.value[i];
              && bar.name == habits[i].name
              && bar.count == |MonthRows(log, habits[i].name, y, m)|
              && bar.band == ChartBand(bar.count, habits[i].goal)
    ensures v.lastThreeDays.Some? ==> |v.lastThreeDays.value| == |habits|
    ensures v.lastThreeDays.Some? ==> forall i :: 0 <= i < |habits| && habits[i].name != "" ==>
              v.lastThreeDays.value[i] == |RecentRows(log, habits[i].name, today)|
    ensures v.momentum.Some? ==> AllPositive(v.momentum.value)
    ensures v.momentum.Some? ==> forall h :: h in v.momentum.value <==>
              h != "" && exists i :: 0 <= i < |log| && log[i].habit == h && IsRecent(today, log[i].date)
    ensures v.momentum.Some? ==> forall h :: h != "" ==> Get(v.momentum.value, h) == |RecentRows(log, h, today)|
  {
    var c := CountRows(log, today, y, m);
    EmptyCounts(log, today, y, m);
    var monthly :=
      if habits == [] || c.monthly == map[] then None
      else Some(seq(|habits|, i requires 0 <= i < |habits| =>
        Bar(habits[i].name, Get(c.monthly, habits[i].name),
            ChartBand(Get(c.monthly, habits[i].name), habits[i].goal))));
    var lastThreeDays :=
      if habits == [] || c.lastThreeDays == map[] then None
      else Some(seq(|habits|, i requires 0 <= i < |habits| => Get(c.lastThreeDays, habits[i].name)));
    var momentum := if c.momentum == map[] then None else Some(c.momentum);
    assert forall h :: h != "" ==>
      Get(c.monthly, h) == |MonthRows(log, h, y, m)| && Get(c.lastThreeDays, h) == |RecentRows(log, h, today)|
    by {
      forall h | h != "" {
        CountRowsCounts(log, today, y, m, h);
      }
    }
    assert forall h :: h in c.momentum <==>
      h != "" && exists i :: 0 <= i < |log| && log[i].habit == h && IsRecent(today, log[i].date)
    by {
      forall h {
        CountRowsKeys(log, today, y, m, h);
      }
    }
    ChartsView(monthly, lastThreeDays, momentum)
  }
}
