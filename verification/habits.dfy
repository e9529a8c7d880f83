/**
 The habit registry and the completion log of the habit tracker.

 The log is the data rows of `habits_data.csv` (columns habit, goal, date, completed),
 in file order; the registry is the application's in-memory list of habits. The
 registry is rebuilt from the log at start-up (`load_habits`), grows by `add_habit`
 without touching the log, and the log grows by `mark_habit`, which appends a row only
 when no row already records that habit on that day.
 */
module Habits {
  import opened Wrappers
  import opened Calendar
  import opened Text
  import opened DateText

  datatype Habit = Habit(name: string, goal: int)

  /** One data row of the log. The date column holds `FormatDate(date)`. */
  datatype Row = Row(habit: string, goal: int, date: CalendarDate, completed: int)

  /** The in-memory registry together with the rows of the log file. */
  datatype State = State(habits: seq<Habit>, log: seq<Row>)

  predicate HasHabit(habits: seq<Habit>, name: string) {
    exists i :: 0 <= i < |habits| && habits[i].name == name
  }

  predicate DistinctNames(habits: seq<Habit>) {
    forall i, j :: 0 <= i < j < |habits| ==> habits[i].name != habits[j].name
  }

  predicate NamesNonEmpty(habits: seq<Habit>) {
    forall i :: 0 <= i < |habits| ==> habits[i].name != ""
  }

  /** The registry invariant: every habit has a name, and no name occurs twice. */
  predicate WellFormedRegistry(habits: seq<Habit>) {
    DistinctNames(habits) && NamesNonEmpty(habits)
  }

  predicate LogMentions(log: seq<Row>, name: string) {
    exists j :: 0 <= j < |log| && log[j].habit == name
  }

  /** Row j is the first row of the log for the habit called name. */
  predicate IsFirstRow(log: seq<Row>, name: string, j: int) {
    && 0 <= j < |log|
    && log[j].habit == name
    && forall k :: 0 <= k < j ==> log[k].habit != name
  }

  // ---------------------------------------------------------------------------
  // load_habits

  /**
   `load_habits`: scan the rows in order and register each non-empty habit name the
   first time it is seen, with the goal written on that row.
   */
  function LoadHabits(log: seq<Row>): (habits: seq<Habit>)
    ensures WellFormedRegistry(habits)
    ensures |habits| <= |log|
    decreases |log|
  {
    if log == [] then []
    else
      var known := LoadHabits(log[..|log| - 1]);
      var row := log[|log| - 1];
      if row.habit != "" && !HasHabit(known, row.habit) then known + [Habit(row.habit, row.goal)]
      else known
  }

  /** How the first rows and the mentioned names of a log relate to those of its prefix. */
  lemma PrefixRows(log: seq<Row>)
    requires log != []
    ensures forall name, j :: IsFirstRow(log[..|log| - 1], name, j) <==> IsFirstRow(log, name, j) && j < |log| - 1
    ensures forall name :: LogMentions(log, name) <==> LogMentions(log[..|log| - 1], name) || log[|log| - 1].habit == name
  {
    var n := |log| - 1;
    var prefix := log[..n];
    assert forall k :: 0 <= k < n ==> prefix[k] == log[k];
    forall name
      ensures LogMentions(log, name) <==> LogMentions(prefix, name) || log[n].habit == name
    {
      if LogMentions(log, name) {
        var j :| 0 <= j < |log| && log[j].habit == name;
        if j < n {
          assert prefix[j].habit == name;
        }
      }
      if LogMentions(prefix, name) {
        var j :| 0 <= j < |prefix| && prefix[j].habit == name;
        assert log[j].habit == name;
      }
    }
  }

  /** The registry rebuilt from a log lists exactly the non-empty names the log mentions. */
  lemma {:induction false} LoadHabitsNames(log: seq<Row>)
    ensures forall name :: HasHabit(LoadHabits(log), name) <==> name != "" && LogMentions(log, name)
    decreases |log|
  {
    if log == [] {
      assert LoadHabits(log) == [];
    } else {
      var n := |log| - 1;
      var prefix := log[..n];
      var row := log[n];
      var known := LoadHabits(prefix);
      var habits := LoadHabits(log);
      LoadHabitsNames(prefix);
      PrefixRows(log);
      if row.habit != "" && !HasHabit(known, row.habit) {
        assert habits == known + [Habit(row.habit, row.goal)];
        forall name
          ensures HasHabit(habits, name) <==> HasHabit(known, name) || name == row.habit
        {
          if HasHabit(habits, name) {
            var i :| 0 <= i < |habits| && habits[i].name == name;
            if i < |known| {
              assert known[i].name == name;
            }
          }
          if HasHabit(known, name) {
            var i :| 0 <= i < |known| && known[i].name == name;
            assert habits[i].name == name;
          }
          if name == row.habit {
            assert habits[|known|].name == name;
          }
        }
      }
    }
  }

  /** Each habit of the rebuilt registry carries the goal of the first row naming it. */
  lemma {:induction false} LoadHabitsGoals(log: seq<Row>)
    ensures forall i :: 0 <= i < |LoadHabits(log)| ==>
              exists j :: IsFirstRow(log, LoadHabits(log)[i].name, j) && log[j].goal == LoadHabits(log)[i].goal
    decreases |log|
  {
    if log == [] {
      assert LoadHabits(log) == [];
    } else {
      var n := |log| - 1;
      var prefix := log[..n];
      var row := log[n];
      var known := LoadHabits(prefix);
      var habits := LoadHabits(log);
      LoadHabitsGoals(prefix);
      LoadHabitsNames(prefix);
      PrefixRows(log);
      assert forall k :: 0 <= k < n ==> prefix[k] == log[k];
      forall i | 0 <= i < |habits|
        ensures exists j :: IsFirstRow(log, habits[i].name, j) && log[j].goal == habits[i].goal
      {
        if i < |known| {
          assert habits[i] == known[i];
          var j :| IsFirstRow(prefix, known[i].name, j) && prefix[j].goal == known[i].goal;
          assert IsFirstRow(log, habits[i].name, j);
        } else {
          assert habits[i] == Habit(row.habit, row.goal);
          assert !LogMentions(prefix, row.habit);
          assert IsFirstRow(log, habits[i].name, n);
        }
      }
    }
  }

  /** The rebuilt registry lists habits in the order of their first rows. */
  lemma {:induction false} LoadHabitsOrder(log: seq<Row>)
    ensures forall i, i', j, j' ::
              && 0 <= i < i' < |LoadHabits(log)|
              && IsFirstRow(log, LoadHabits(log)[i].name, j)
              && IsFirstRow(log, LoadHabits(log)[i'].name, j')
              ==> j < j'
    decreases |log|
  {
    if log == [] {
      assert LoadHabits(log) == [];
    } else {
      var n := |log| - 1;
      var prefix := log[..n];
      var row := log[n];
      var known := LoadHabits(prefix);
      var habits := LoadHabits(log);
      LoadHabitsOrder(prefix);
      LoadHabitsNames(prefix);
      PrefixRows(log);
      assert forall i :: 0 <= i < |known| ==> habits[i] == known[i];
      forall i, i', j, j' |
        && 0 <= i < i' < |habits|
        && IsFirstRow(log, habits[i].name, j)
        && IsFirstRow(log, habits[i'].name, j')
        ensures j < j'
      {
        assert HasHabit(known, known[i].name);
        // Only the habit appended for the last row can have its first row there.
        if j == n {
          assert false;
        }
        if i' < |known| {
          assert HasHabit(known, known[i'].name);
          if j' == n {
            assert false;
          }
          assert IsFirstRow(prefix, known[i].name, j);
          assert IsFirstRow(prefix, known[i'].name, j');
        }
      }
    }
  }

  /** Appending a row extends the rebuilt registry exactly when the row names a new habit. */
  lemma LoadHabitsAppend(log: seq<Row>, row: Row)
    ensures LoadHabits(log + [row]) ==
              if row.habit != "" && !LogMentions(log, row.habit)
              then LoadHabits(log) + [Habit(row.habit, row.goal)]
              else LoadHabits(log)
  {
    assert (log + [row])[..|log|] == log;
    LoadHabitsNames(log);
  }

  // ---------------------------------------------------------------------------
  // add_habit

  datatype AddError =
    | MissingInput    // "Please enter both habit name and goal"
    | GoalNotANumber  // "Goal must be a number"
    | DuplicateName   // "Habit already exists"

  /** The state after `add_habit`, and the warning it showed, if any. */
  datatype AddOutcome = AddOutcome(state: State, error: Option<AddError>)

  /**
   `add_habit` on the texts of the name and goal entries: strip both, reject an empty
   one, a goal that is not an integer, or a name already registered, and otherwise
   append the habit to the registry. The log is never written.
   */
  function AddHabit(s: State, nameEntry: string, goalEntry: string): (r: AddOutcome)
    ensures r.error.Some? ==> r.state == s
    ensures r.error == Some(MissingInput) <==> Strip(nameEntry) == [] || Strip(goalEntry) == []
    ensures r.error == Some(GoalNotANumber) <==>
              Strip(nameEntry) != [] && Strip(goalEntry) != [] && !IsIntegerText(Strip(goalEntry))
    ensures r.error == Some(DuplicateName) <==>
              Strip(nameEntry) != [] && IsIntegerText(Strip(goalEntry)) && HasHabit(s.habits, Strip(nameEntry))
    ensures r.error.None? ==>
              && r.state.log == s.log
              && |r.state.habits| == |s.habits| + 1
              && r.state.habits[..|s.habits|] == s.habits
              && r.state.habits[|s.habits|] == Habit(Strip(nameEntry), ParseInt(Strip(goalEntry)).value)
    ensures WellFormedRegistry(s.habits) ==> WellFormedRegistry(r.state.habits)
  {
    var name := Strip(nameEntry);
    var goalText := Strip(goalEntry);
    if name == [] || goalText == [] then AddOutcome(s, Some(MissingInput))
    else match ParseInt(goalText)
      case None => AddOutcome(s, Some(GoalNotANumber))
      case Some(goal) =>
        if HasHabit(s.habits, name) then AddOutcome(s, Some(DuplicateName))
        else
          var habits := s.habits + [Habit(name, goal)];
          assert habits[..|s.habits|] == s.habits;
          AddOutcome(State(habits, s.log), None)
  }

  /**
   A name that is new, non-blank and paired with an integer goal is added, and the
   registry then holds exactly one habit of that name, carrying that goal.
   */
  lemma AddFreshHabit(s: State, nameEntry: string, goalEntry: string, goal: int)
    requires WellFormedRegistry(s.habits)
    requires Strip(nameEntry) != [] && !HasHabit(s.habits, Strip(nameEntry))
    requires ParseInt(Strip(goalEntry)) == Some(goal)
    ensures AddHabit(s, nameEntry, goalEntry).error.None?
    ensures forall i :: 0 <= i < |AddHabit(s, nameEntry, goalEntry).state.habits| ==>
              (AddHabit(s, nameEntry, goalEntry).state.habits[i].name == Strip(nameEntry) <==>
               i == |s.habits|)
    ensures AddHabit(s, nameEntry, goalEntry).state.habits[|s.habits|].goal == goal
  {
    var r := AddHabit(s, nameEntry, goalEntry);
    assert r.error.None?;
    forall i | 0 <= i < |r.state.habits|
      ensures r.state.habits[i].name == Strip(nameEntry) <==> i == |s.habits|
    {
      if i < |s.habits| {
        assert r.state.habits[i] == s.habits[i];
      }
    }
  }

  // ---------------------------------------------------------------------------
  // mark_habit

  /** Some row records the habit called name on the day whose text is dateText. */
  predicate IsMarked(log: seq<Row>, name: string, dateText: string): (b: bool)
    ensures b ==> ParseDate(dateText).Some?
                  && exists i :: 0 <= i < |log| && log[i].habit == name && log[i].date == ParseDate(dateText).value
  {
    var b := exists i :: 0 <= i < |log| && log[i].habit == name && FormatDate(log[i].date) == dateText;
    assert b ==> ParseDate(dateText).Some?
                 && exists i :: 0 <= i < |log| && log[i].habit == name && log[i].date == ParseDate(dateText).value by {
      if b {
        var i :| 0 <= i < |log| && log[i].habit == name && FormatDate(log[i].date) == dateText;
        ParseFormatRoundTrip(log[i].date);
      }
    }
    b
  }

  /** Comparing date texts in the log is comparing the dates themselves. */
  lemma IsMarkedOnDate(log: seq<Row>, name: string, d: CalendarDate)
    ensures IsMarked(log, name, FormatDate(d)) <==>
              exists i :: 0 <= i < |log| && log[i].habit == name && log[i].date == d
  {
    forall i | 0 <= i < |log|
      ensures FormatDate(log[i].date) == FormatDate(d) <==> log[i].date == d
    {
      FormatDateInjective(log[i].date, d);
    }
  }

  /** The goal of the first registered habit called name: `next(h for h in habits if ...)`. */
  function GoalOf(habits: seq<Habit>, name: string): (goal: int)
    requires HasHabit(habits, name)
    ensures exists i :: IsFirstHabit(habits, name, i) && habits[i].goal == goal
  {
    if habits[0].name == name then
      assert IsFirstHabit(habits, name, 0);
      habits[0].goal
    else
      assert HasHabit(habits[1..], name) by {
        var i :| 0 <= i < |habits| && habits[i].name == name;
        assert habits[1..][i - 1].name == name;
      }
      var goal := GoalOf(habits[1..], name);
      ghost var i :| IsFirstHabit(habits[1..], name, i) && habits[1..][i].goal == goal;
      assert IsFirstHabit(habits, name, i + 1);
      goal
  }

  predicate IsFirstHabit(habits: seq<Habit>, name: string, i: int) {
    && 0 <= i < |habits|
    && habits[i].name == name
    && forall k :: 0 <= k < i ==> habits[k].name != name
  }

  /** In a well-formed registry the goal found is the goal of the one habit of that name. */
  lemma GoalOfUnique(habits: seq<Habit>, name: string, i: int)
    requires WellFormedRegistry(habits)
    requires 0 <= i < |habits| && habits[i].name == name
    ensures GoalOf(habits, name) == habits[i].goal
  {
    var goal := GoalOf(habits, name);
    var j :| IsFirstHabit(habits, name, j) && habits[j].goal == goal;
  }

  /**
   `mark_habit(name, date)`: look for a row with this habit and this date text; if none
   exists, append one carrying the habit's registered goal and completed = 1.
   The registry lookup only happens on the append path, so it is only then that the
   name must be registered.
   */
  function MarkHabit(s: State, name: string, d: CalendarDate): (r: State)
    requires IsMarked(s.log, name, FormatDate(d)) || HasHabit(s.habits, name)
    ensures r.habits == s.habits
    ensures IsMarked(s.log, name, FormatDate(d)) ==> r.log == s.log
    ensures !IsMarked(s.log, name, FormatDate(d)) ==>
              r.log == s.log + [Row(name, GoalOf(s.habits, name), d, 1)]
    ensures IsMarked(r.log, name, FormatDate(d))
    ensures forall h, t :: IsMarked(r.log, h, t) <==> IsMarked(s.log, h, t) || (h == name && t == FormatDate(d))
  {
    var dateText := FormatDate(d);
    if IsMarked(s.log, name, dateText) then s
    else
      var row := Row(name, GoalOf(s.habits, name), d, 1);
      AppendMarks(s.log, row);
      State(s.habits, s.log + [row])
  }

  /** After appending a row, a (habit, date text) pair is marked iff it was, or the row records it. */
  lemma AppendMarks(log: seq<Row>, row: Row)
    ensures forall h, t :: IsMarked(log + [row], h, t) <==>
              IsMarked(log, h, t) || (h == row.habit && t == FormatDate(row.date))
  {
    forall h, t {
      AppendMarksAt(log, row, h, t);
    }
  }

  lemma AppendMarksAt(log: seq<Row>, row: Row, h: string, t: string)
    ensures IsMarked(log + [row], h, t) <==> IsMarked(log, h, t) || (h == row.habit && t == FormatDate(row.date))
  {
    var log' := log + [row];
    if IsMarked(log', h, t) {
      var i :| 0 <= i < |log'| && log'[i].habit == h && FormatDate(log'[i].date) == t;
      if i < |log| {
        assert log[i] == log'[i];
      }
    }
    if IsMarked(log, h, t) {
      var i :| 0 <= i < |log| && log[i].habit == h && FormatDate(log[i].date) == t;
      assert log'[i] == log[i];
    }
    if h == row.habit && t == FormatDate(row.date) {
      assert log'[|log|] == row;
    }
  }

  /** Marking the same day twice leaves the log as marking it once. */
  lemma MarkIdempotent(s: State, name: string, d: CalendarDate)
    requires IsMarked(s.log, name, FormatDate(d)) || HasHabit(s.habits, name)
    ensures MarkHabit(MarkHabit(s, name, d), name, d) == MarkHabit(s, name, d)
  {
  }

  /** The log invariant the read-before-write check maintains: one row per (habit, date). */
  predicate NoDuplicateKeys(log: seq<Row>) {
    forall i, j :: 0 <= i < j < |log| ==> !(log[i].habit == log[j].habit && log[i].date == log[j].date)
  }

  /** Marking never creates a second row for the same habit and day. */
  lemma MarkKeepsKeysUnique(s: State, name: string, d: CalendarDate)
    requires IsMarked(s.log, name, FormatDate(d)) || HasHabit(s.habits, name)
    requires NoDuplicateKeys(s.log)
    ensures NoDuplicateKeys(MarkHabit(s, name, d).log)
  {
    var r := MarkHabit(s, name, d);
    if !IsMarked(s.log, name, FormatDate(d)) {
      IsMarkedOnDate(s.log, name, d);
      forall i, j | 0 <= i < j < |r.log|
        ensures !(r.log[i].habit == r.log[j].habit && r.log[i].date == r.log[j].date)
      {
        if j == |s.log| {
          assert r.log[i] == s.log[i];
        } else {
          assert r.log[i] == s.log[i] && r.log[j] == s.log[j];
        }
      }
    }
  }

  /**
   Rebuilding the registry after a mark: the habit appears, at the end and with its
   registered goal, exactly when the log did not mention it before.
   */
  lemma ReloadAfterMark(s: State, name: string, d: CalendarDate)
    requires name != "" && HasHabit(s.habits, name)
    ensures LoadHabits(MarkHabit(s, name, d).log) ==
              if LogMentions(s.log, name) then LoadHabits(s.log)
              else LoadHabits(s.log) + [Habit(name, GoalOf(s.habits, name))]
  {
    if IsMarked(s.log, name, FormatDate(d)) {
      var i :| 0 <= i < |s.log| && s.log[i].habit == name && FormatDate(s.log[i].date) == FormatDate(d);
      assert LogMentions(s.log, name);
    } else {
      LoadHabitsAppend(s.log, Row(name, GoalOf(s.habits, name), d, 1));
    }
  }

  /**
   A habit added since start-up is not in the log, so a reload drops it until its first
   mark; once marked, a reload restores the in-memory registry exactly.
   */
  lemma AddedHabitPersistsOnlyOnceMarked(s: State, nameEntry: string, goalEntry: string, d: CalendarDate)
    requires s.habits == LoadHabits(s.log)
    requires AddHabit(s, nameEntry, goalEntry).error.None?
    ensures LoadHabits(AddHabit(s, nameEntry, goalEntry).state.log) == s.habits
    ensures LoadHabits(MarkHabit(AddHabit(s, nameEntry, goalEntry).state, Strip(nameEntry), d).log)
            == AddHabit(s, nameEntry, goalEntry).state.habits
  {
    var added := AddHabit(s, nameEntry, goalEntry).state;
    var name := Strip(nameEntry);
    var n := |s.habits|;
    assert added.habits[n].name == name;
    assert HasHabit(added.habits, name);
    LoadHabitsNames(s.log);
    assert !LogMentions(s.log, name);
    GoalOfUnique(added.habits, name, n);
    ReloadAfterMark(added, name, d);
    assert added.habits == s.habits + [added.habits[n]];
  }
}
