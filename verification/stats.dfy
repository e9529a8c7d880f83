/**
 The statistics the habit tracker derives from the log on every refresh: the per-habit
 row of the monthly grid (checked days, completion count, percentage and colour band).
 */
module Stats {
  import opened Wrappers
  import opened Calendar
  import opened Text
  import opened DateText
  import opened Habits

  // ---------------------------------------------------------------------------
  // The monthly grid

  /** `completion_data`: the (habit, date text) pairs of the rows with a non-empty habit. */
  function CompletionKeys(log: seq<Row>): (keys: set<(string, string)>)
    ensures forall k :: k in keys <==> k.0 != "" && IsMarked(log, k.0, k.1)
  {
    var keys := set i | 0 <= i < |log| && log[i].habit != "" :: (log[i].habit, FormatDate(log[i].date));
    assert forall k :: k in keys <==> k.0 != "" && IsMarked(log, k.0, k.1) by {
      forall k
        ensures k in keys <==> k.0 != "" && IsMarked(log, k.0, k.1)
      {
        if k.0 != "" && IsMarked(log, k.0, k.1) {
          var i :| 0 <= i < |log| && log[i].habit == k.0 && FormatDate(log[i].date) == k.1;
          assert (log[i].habit, FormatDate(log[i].date)) in keys;
        }
      }
    }
    keys
  }

  /** Whether the grid box of the habit called name on day d of month (y, m) is checked. */
  predicate IsChecked(keys: set<(string, string)>, name: string, y: int, m: int, d: int): (b: bool)
    requires DisplayableMonth(y, m) && 1 <= d <= DaysInMonth(y, m)
    ensures b <==> exists k :: k in keys && k.0 == name && ParseDate(k.1) == Some(MonthDay(y, m, d))
  {
    var day := MonthDay(y, m, d);
    var b := (name, FormatDate(day)) in keys;
    assert b <==> exists k :: k in keys && k.0 == name && ParseDate(k.1) == Some(day) by {
      if b {
        ParseFormatRoundTrip(day);
        assert (name, FormatDate(day)).0 == name;
      }
      if exists k :: k in keys && k.0 == name && ParseDate(k.1) == Some(day) {
        var k :| k in keys && k.0 == name && ParseDate(k.1) == Some(day);
        FormatParseRoundTrip(k.1);
        assert k == (name, FormatDate(day));
      }
    }
    b
  }

  /** The days of month (y, m) whose box is checked for the habit. */
  ghost function CheckedDays(keys: set<(string, string)>, name: string, y: int, m: int): set<int>
    requires DisplayableMonth(y, m)
  {
    set d | 1 <= d <= DaysInMonth(y, m) && IsChecked(keys, name, y, m, d)
  }

  /** The members of S among 1..n. */
  ghost function UpTo(S: set<int>, n: int): set<int> {
    set d | d in S && 1 <= d <= n
  }

  lemma UpToStep(S: set<int>, n: int)
    requires n >= 1
    ensures n !in UpTo(S, n - 1)
    ensures UpTo(S, n) == if n in S then UpTo(S, n - 1) + {n} else UpTo(S, n - 1)
  {
  }

  /** The running count `completed` of the grid loop after days 1..n. */
  function CountCheckedDays(keys: set<(string, string)>, name: string, y: int, m: int, n: int): (c: nat)
    requires DisplayableMonth(y, m) && 0 <= n <= DaysInMonth(y, m)
    ensures c == |UpTo(CheckedDays(keys, name, y, m), n)|
    ensures c <= n
    decreases n
  {
    if n == 0 then
      assert UpTo(CheckedDays(keys, name, y, m), n) == {};
      0
    else
      var before := CountCheckedDays(keys, name, y, m, n - 1);
      UpToStep(CheckedDays(keys, name, y, m), n);
      assert n in CheckedDays(keys, name, y, m) <==> IsChecked(keys, name, y, m, n);
      if IsChecked(keys, name, y, m, n) then before + 1 else before
  }

  /** The count after the whole month: the number of distinct checked days. */
  function GridCount(keys: set<(string, string)>, name: string, y: int, m: int): (c: nat)
    requires DisplayableMonth(y, m)
    ensures c == |CheckedDays(keys, name, y, m)|
    ensures c <= DaysInMonth(y, m)
  {
    assert UpTo(CheckedDays(keys, name, y, m), DaysInMonth(y, m)) == CheckedDays(keys, name, y, m);
    CountCheckedDays(keys, name, y, m, DaysInMonth(y, m))
  }

  /** The grid's completion count for a habit: the distinct checked days of the month. */
  function GridCompleted(log: seq<Row>, name: string, y: int, m: int): (c: nat)
    requires DisplayableMonth(y, m)
    ensures c == |CheckedDays(CompletionKeys(log), name, y, m)|
    ensures c <= DaysInMonth(y, m)
  {
    GridCount(CompletionKeys(log), name, y, m)
  }

  lemma MulMonotone(a: int, b: int, g: int)
    requires a <= b && g > 0
    ensures a * g <= b * g
  {
  }

  /**
   The completion percentage, truncated: 0 when the goal is not positive, else the
   whole part of completed / goal * 100.
   */
  function Progress(completed: nat, goal: int): (p: nat)
    ensures goal <= 0 ==> p == 0
    ensures goal > 0 ==> p * goal <= 100 * completed < (p + 1) * goal
    ensures goal > 0 && completed <= goal ==> p <= 100
  {
    if goal > 0 then
      var p := (100 * completed) / goal;
      assert p * goal + (100 * completed) % goal == 100 * completed;
      assert p * goal <= 100 * completed < (p + 1) * goal;
      assert completed <= goal ==> p <= 100 by {
        if completed <= goal {
          MulMonotone(completed, goal, 100);
          PercentAtMostHundred(p, goal, 100 * completed);
        }
      }
      p
    else 0
  }

  lemma PercentAtMostHundred(p: int, goal: int, scaled: int)
    requires goal > 0 && p * goal <= scaled <= 100 * goal
    ensures p <= 100
  {
    if p > 100 {
      MulMonotone(101, p, goal);
    }
  }

  datatype Band = Danger | Warning | Success

  /** The colour of a percentage: below 30, below 70, or at least 70. */
  function ProgressBand(p: int): (b: Band)
    ensures b == Danger <==> p < 30
    ensures b == Success <==> p >= 70
    ensures b == Warning <==> 30 <= p < 70
  {
    if p < 30 then Danger else if p < 70 then Warning else Success
  }

  /**
   The band of a habit follows from its counts alone: red while fewer than 30 per cent
   of the goal is done, the success colour from 70 per cent on, red for a goal that is
   not positive.
   */
  lemma BandOfCounts(completed: nat, goal: int)
    ensures goal <= 0 ==> ProgressBand(Progress(completed, goal)) == Danger
    ensures goal > 0 ==> (ProgressBand(Progress(completed, goal)) == Danger <==> 100 * completed < 30 * goal)
    ensures goal > 0 ==> (ProgressBand(Progress(completed, goal)) == Success <==> 100 * completed >= 70 * goal)
  {
    if goal > 0 {
      var p := Progress(completed, goal);
      if p >= 30 { MulMonotone(30, p, goal); } else { MulMonotone(p + 1, 30, goal); }
      if p >= 70 { MulMonotone(70, p, goal); } else { MulMonotone(p + 1, 70, goal); }
    }
  }

  /** The band never gets worse as the percentage grows. */
  lemma BandMonotone(p: int, q: int)
    requires p <= q
    ensures ProgressBand(p) == Success ==> ProgressBand(q) == Success
    ensures ProgressBand(q) == Danger ==> ProgressBand(p) == Danger
  {
  }

  /** Width of the habit-name column of the grid, in characters. */
  const NameColumnWidth := 18

  /** What the grid shows for one habit. */
  datatype HabitRowView = HabitRowView(
    nameText: string,
    showTooltip: bool,
    goal: int,
    checked: seq<bool>,
    completed: nat,
    progress: nat,
    band: Band)

  /** The grid boxes of days 1..k of month (y, m): box i is day i + 1, checked when marked. */
  function DayBoxesUpTo(keys: set<(string, string)>, name: string, y: int, m: int, k: int): (boxes: seq<bool>)
    requires DisplayableMonth(y, m) && 0 <= k <= DaysInMonth(y, m)
    ensures |boxes| == k
    ensures forall i :: 0 <= i < k ==> (boxes[i] <==> IsChecked(keys, name, y, m, i + 1))
    decreases k
  {
    if k == 0 then [] else DayBoxesUpTo(keys, name, y, m, k - 1) + [IsChecked(keys, name, y, m, k)]
  }

  function DayBoxes(keys: set<(string, string)>, name: string, y: int, m: int): (boxes: seq<bool>)
    requires DisplayableMonth(y, m)
    ensures |boxes| == DaysInMonth(y, m)
    ensures forall i :: 0 <= i < |boxes| ==> (boxes[i] <==> IsChecked(keys, name, y, m, i + 1))
  {
    DayBoxesUpTo(keys, name, y, m, DaysInMonth(y, m))
  }

  /**
   One habit's row of the grid for month (y, m): the wrapped name (with a tooltip when
   the name was cut), the goal, a box per day checked when the log records that day,
   the count of checked boxes, and the percentage with its band.
   */
  function HabitRow(keys: set<(string, string)>, habit: Habit, y: int, m: int): (v: HabitRowView)
    requires DisplayableMonth(y, m)
    ensures v.goal == habit.goal
    ensures v.showTooltip <==> v.nameText != habit.name
    ensures v.showTooltip <==> |habit.name| > NameColumnWidth
    ensures !v.showTooltip ==> v.nameText == habit.name
    ensures v.showTooltip ==> |v.nameText| == NameColumnWidth && v.nameText[..NameColumnWidth - 2] == habit.name[..NameColumnWidth - 2]
    ensures v.showTooltip ==> v.nameText[NameColumnWidth - 2..] == ".."
    ensures |v.checked| == DaysInMonth(y, m)
    ensures forall i :: 0 <= i < |v.checked| ==> (v.checked[i] <==> IsChecked(keys, habit.name, y, m, i + 1))
    ensures v.completed == |CheckedDays(keys, habit.name, y, m)|
    ensures v.completed <= |v.checked|
    ensures v.progress == Progress(v.completed, habit.goal)
    ensures v.band == ProgressBand(v.progress)
  {
    var completed := GridCount(keys, habit.name, y, m);
    var nameText := WrapText(habit.name, NameColumnWidth);
    var progress := Progress(completed, habit.goal);
    HabitRowView(nameText, |habit.name| > NameColumnWidth, habit.goal,
                 DayBoxes(keys, habit.name, y, m), completed, progress, ProgressBand(progress))
  }

  /** The whole grid: one row per registered habit, in registry order. */
  function Grid(s: State, y: int, m: int): (rows: seq<HabitRowView>)
    requires DisplayableMonth(y, m)
    ensures |rows| == |s.habits|
    ensures forall i :: 0 <= i < |rows| ==> rows[i] == HabitRow(CompletionKeys(s.log), s.habits[i], y, m)
  {
    var keys := CompletionKeys(s.log);
    seq(|s.habits|, i requires 0 <= i < |s.habits| => HabitRow(keys, s.habits[i], y, m))
  }

  /** A row repeating an already recorded (habit, date) pair changes no grid box. */
  lemma DuplicateRowCollapses(log: seq<Row>, row: Row)
    requires IsMarked(log, row.habit, FormatDate(row.date))
    ensures CompletionKeys(log + [row]) == CompletionKeys(log)
  {
    AppendMarks(log, row);
  }

  lemma CheckedDaysOfKeys(log: seq<Row>, name: string, y: int, m: int)
    requires DisplayableMonth(y, m) && name != ""
    ensures CheckedDays(CompletionKeys(log), name, y, m) ==
              set d | 1 <= d <= DaysInMonth(y, m) && IsMarked(log, name, FormatDate(Date(y, m, d)))
  {
  }

  /** Marking adds the (habit, date text) pair of the mark to the completion keys. */
  lemma MarkKeys(s: State, name: string, d: CalendarDate)
    requires name != ""
    requires IsMarked(s.log, name, FormatDate(d)) || HasHabit(s.habits, name)
    ensures CompletionKeys(MarkHabit(s, name, d).log) == CompletionKeys(s.log) + {(name, FormatDate(d))}
  {
    var after := CompletionKeys(MarkHabit(s, name, d).log);
    var before := CompletionKeys(s.log);
    forall k
      ensures k in after <==> k in before + {(name, FormatDate(d))}
    {
    }
  }

  lemma CheckedDaysOtherKey(keys: set<(string, string)>, k: (string, string), other: string, y: int, m: int)
    requires DisplayableMonth(y, m) && k.0 != other
    ensures CheckedDays(keys + {k}, other, y, m) == CheckedDays(keys, other, y, m)
  {
  }

  lemma CheckedDaysNewKey(keys: set<(string, string)>, name: string, d: CalendarDate, y: int, m: int)
    requires DisplayableMonth(y, m)
    ensures CheckedDays(keys + {(name, FormatDate(d))}, name, y, m) ==
              CheckedDays(keys, name, y, m) + (if d.year == y && d.month == m then {d.day} else {})
  {
    var n := DaysInMonth(y, m);
    var key := (name, FormatDate(d));
    var extra: set<int> := if d.year == y && d.month == m then {d.day} else {};
    if d.year == y && d.month == m {
      assert d.day <= n by {
        DaysInMonthFacts(y, m);
      }
    }
    forall e
      ensures e in CheckedDays(keys + {key}, name, y, m) <==> e in CheckedDays(keys, name, y, m) + extra
    {
      if 1 <= e <= n {
        FormatDateInjective(Date(y, m, e), d);
        assert IsChecked(keys + {key}, name, y, m, e) <==> IsChecked(keys, name, y, m, e) || e in extra;
      }
    }
  }

  /** The grid counts once the key (name, FormatDate(d)) joins the completion keys. */
  lemma GridAfterKey(before: set<(string, string)>, name: string, d: CalendarDate, other: string, y: int, m: int)
    requires DisplayableMonth(y, m) && other != name
    ensures var after := before + {(name, FormatDate(d))};
            && |CheckedDays(after, other, y, m)| == |CheckedDays(before, other, y, m)|
            && ((name, FormatDate(d)) !in before && d.year == y && d.month == m ==>
                  |CheckedDays(after, name, y, m)| == |CheckedDays(before, name, y, m)| + 1)
            && ((name, FormatDate(d)) in before || d.year != y || d.month != m ==>
                  |CheckedDays(after, name, y, m)| == |CheckedDays(before, name, y, m)|)
  {
    var key := (name, FormatDate(d));
    CheckedDaysOtherKey(before, key, other, y, m);
    CheckedDaysNewKey(before, name, d, y, m);
    if key in before {
      assert before + {key} == before;
    } else if d.year == y && d.month == m {
      assert d.day !in CheckedDays(before, name, y, m);
    }
  }

  /**
   Marking a new day of the displayed month adds exactly one to that habit's grid count
   and leaves every other habit's count as it was; marking another month changes none.
   */
  lemma MarkGridEffect(s: State, name: string, d: CalendarDate, other: string, y: int, m: int)
    requires DisplayableMonth(y, m)
    requires name != ""
    requires IsMarked(s.log, name, FormatDate(d)) || HasHabit(s.habits, name)
    requires other != name
    ensures GridCompleted(MarkHabit(s, name, d).log, other, y, m) == GridCompleted(s.log, other, y, m)
    ensures !IsMarked(s.log, name, FormatDate(d)) && d.year == y && d.month == m ==>
              GridCompleted(MarkHabit(s, name, d).log, name, y, m) == GridCompleted(s.log, name, y, m) + 1
    ensures (IsMarked(s.log, name, FormatDate(d)) || d.year != y || d.month != m) ==>
              GridCompleted(MarkHabit(s, name, d).log, name, y, m) == GridCompleted(s.log, name, y, m)
  {
    var before := CompletionKeys(s.log);
    MarkKeys(s, name, d);
    GridAfterKey(before, name, d, other, y, m);
  }
}
