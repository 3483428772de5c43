/**
 * backend/Routes/habits.js: the flag-based variant of the engine. A habit row carries
 * is_completed, completed_at and a stored streak; the helper needsReset decides from
 * completed_at alone whether the period has rolled over, GET / clears rows that are due,
 * POST / validates a new habit and POST /:habit_id/complete marks a row completed.
 * Instants (completed_at, now) are milliseconds since the epoch, given by the caller.
 */
module HabitRoutes {
  import opened Options
  import opened Calendar
  import opened Text
  import opened Periods

  /** 7 * 24 * 60 * 60 * 1000 */
  const MsPerWeek: int := 7 * MsPerDay

  /**
   * needsReset(completedAt, frequency): false without a completion time and for any
   * frequency other than exactly "daily", "weekly" or "monthly" (no lower-casing);
   * daily compares calendar dates, weekly floors the elapsed time to whole weeks, monthly
   * compares month and year.
   */
  function NeedsReset(completedAt: Option<int>, frequency: Option<string>, now: int): (due: bool)
    ensures completedAt.None? ==> !due
    ensures frequency != Some("daily") && frequency != Some("weekly") && frequency != Some("monthly") ==> !due
    ensures completedAt.Some? && frequency == Some("daily") ==>
              (due <==> Day(completedAt.value) != Day(now))
    ensures completedAt.Some? && frequency == Some("weekly") ==>
              (due <==> now - completedAt.value >= MsPerWeek)
    ensures completedAt.Some? && frequency == Some("monthly") ==>
              (due <==> MonthOf(Day(completedAt.value)) != MonthOf(Day(now)))
  {
    match completedAt
    case None => false
    case Some(completed) =>
      var then_, today := DateOf(Day(completed)), DateOf(Day(now));
      DateOfInjective(Day(completed), Day(now));
      SameMonthIndex(Day(completed), Day(now));
      if frequency == Some("daily") then then_ != today
      else if frequency == Some("weekly") then (now - completed) / MsPerWeek >= 1
      else if frequency == Some("monthly") then then_.month != today.month || then_.year != today.year
      else false
  }

  /** A habit completed at an instant is not due at that same instant. */
  lemma NotDueWhenJustCompleted(frequency: Option<string>, now: int)
    ensures !NeedsReset(Some(now), frequency, now)
  {
  }

  /** Once due, a completion stays due as time goes on. */
  lemma DueStaysDue(completed: int, frequency: Option<string>, now: int, later: int)
    requires completed <= now <= later
    requires NeedsReset(Some(completed), frequency, now)
    ensures NeedsReset(Some(completed), frequency, later)
  {
    if frequency == Some("monthly") {
      MonthOfMonotone(Day(completed), Day(now));
      MonthOfMonotone(Day(now), Day(later));
    }
  }

  /**
   * The weekly test is a rolling seven days, not the Monday-start week: a completion on
   * Sunday 1970-01-04 is not due on Monday 1970-01-05, although the Monday-start week has
   * changed in between.
   */
  lemma RollingWeek()
    ensures WeekDay(3) == 0 && WeekDay(4) == 1
    ensures !NeedsReset(Some(3 * MsPerDay), Some("weekly"), 4 * MsPerDay)
    ensures CurrentWindow(Weekly, 3) != CurrentWindow(Weekly, 4)
  {
  }

  // ---------------------------------------------------------------------------------------
  // POST /: creating a habit.

  /** The 400 answers of POST /, in the order they are checked. */
  datatype CreateError = TitleRequired | TitleTooLong | DescriptionTooLong | InvalidFrequency

  /** The values inserted into the habits table. */
  datatype NewHabit = NewHabit(title: string, description: string, frequency: string)

  /** frequency?.toLowerCase() || 'daily' */
  function NormalizedFrequency(frequency: Option<string>): (freq: string)
    ensures frequency.Some? && frequency.value != "" ==> freq == Lower(frequency.value)
    ensures frequency.None? || frequency == Some("") ==> freq == "daily"
  {
    match frequency
    case None => "daily"
    case Some(s) => if Lower(s) == "" then "daily" else Lower(s)
  }

  /**
   * The checks of POST /: a title is required and must not be blank, at most 200 UTF-16
   * code units; a non-empty description at most 1000; the lower-cased frequency, "daily"
   * when absent or empty, must be daily, weekly or monthly. The description is stored as
   * "" when absent.
   */
  function ValidateCreate(title: Option<string>, description: Option<string>, frequency: Option<string>)
    : (r: Result<NewHabit, CreateError>)
    ensures r == Err(TitleRequired) <==> title.None? || forall i :: 0 <= i < |title.value| ==> IsWhitespace(title.value[i])
    ensures r.Ok? <==>
              title.Some? && Trim(title.value) != [] && Utf16Length(title.value) <= 200
              && (description.None? || Utf16Length(description.value) <= 1000)
              && ParseFrequency(NormalizedFrequency(frequency)).Some?
    ensures r.Ok? ==> r.value.title == title.value
    ensures r.Ok? ==> r.value.description == (if description.Some? then description.value else "")
    ensures r == Err(TitleTooLong) <==>
              title.Some? && Trim(title.value) != [] && Utf16Length(title.value) > 200
    ensures r == Err(DescriptionTooLong) <==>
              title.Some? && Trim(title.value) != [] && Utf16Length(title.value) <= 200
              && description.Some? && Utf16Length(description.value) > 1000
    ensures r == Err(InvalidFrequency) <==>
              title.Some? && Trim(title.value) != [] && Utf16Length(title.value) <= 200
              && (description.None? || Utf16Length(description.value) <= 1000)
              && ParseFrequency(NormalizedFrequency(frequency)).None?
    ensures r.Ok? ==> r.value.frequency == NormalizedFrequency(frequency)
    ensures r.Ok? ==> r.value.frequency in {"daily", "weekly", "monthly"}
  {
    if title.None? then
      Err(TitleRequired)
    else
      TrimEmptyIffBlank(title.value);
      if title.value == [] || |Trim(title.value)| == 0 then Err(TitleRequired)
      else if Utf16Length(title.value) > 200 then Err(TitleTooLong)
      else if description.Some? && description.value != [] && Utf16Length(description.value) > 1000 then
        Err(DescriptionTooLong)
      else
        var freq := NormalizedFrequency(frequency);
        if !(freq == "daily" || freq == "weekly" || freq == "monthly") then Err(InvalidFrequency)
        else Ok(NewHabit(title.value, if description.Some? then description.value else "", freq))
  }

  /**
   * A habit that passes validation has a frequency every reader accepts: the period engine
   * recognises it, and so does the exact-match switch of needsReset.
   */
  lemma CreatedFrequencyIsRecognised(title: Option<string>, description: Option<string>, frequency: Option<string>)
    requires ValidateCreate(title, description, frequency).Ok?
    ensures FrequencyOf(Some(ValidateCreate(title, description, frequency).value.frequency)).Some?
  {
    LowerOfFrequencyName(ValidateCreate(title, description, frequency).value.frequency);
  }

  /** Upper-case frequencies are accepted and stored lower-cased. */
  lemma CreateLowerCasesFrequency()
    ensures ValidateCreate(Some("Run"), None, Some("WEEKLY")) == Ok(NewHabit("Run", "", "weekly"))
  {
    LowerExample();
    TrimExample();
  }

  lemma LowerExample()
    ensures Lower("WEEKLY") == "weekly"
  {
  }

  lemma TrimExample()
    ensures Trim("Run") == "Run" && Utf16Length("Run") == 3
  {
    assert !IsWhitespace('R') && !IsWhitespace('n');
  }

  // ---------------------------------------------------------------------------------------
  // The habit row and its two transitions.

  /** The answers of POST /:habit_id/complete. */
  datatype CompleteOutcome = NotFound | AlreadyCompleted | Completed(streak: int)

  /** habit.streak || 0: a NULL (or zero) stored streak counts as 0. */
  function StoredStreak(streak: Option<int>): (n: int)
    ensures streak.None? ==> n == 0
    ensures streak.Some? ==> n == streak.value
  {
    match streak
    case None => 0
    case Some(s) => s
  }

  /** The mutable columns of a habit row. */
  datatype RowState = RowState(isCompleted: bool, completedAt: Option<int>, streak: Option<int>)

  /** What the GET sweep leaves of a row: a completed row that is due is cleared, streak kept. */
  function Swept(s: RowState, frequency: Option<string>, now: int): (t: RowState)
    ensures t.streak == s.streak
    ensures !(t.isCompleted && NeedsReset(t.completedAt, frequency, now))
    ensures s.isCompleted && NeedsReset(s.completedAt, frequency, now) ==> !t.isCompleted && t.completedAt.None?
    ensures !(s.isCompleted && NeedsReset(s.completedAt, frequency, now)) ==> t == s
  {
    if s.isCompleted && NeedsReset(s.completedAt, frequency, now) then
      RowState(false, None, s.streak)
    else s
  }

  /** Sweeping twice is sweeping once. */
  lemma SweptIdempotent(s: RowState, frequency: Option<string>, now: int)
    ensures Swept(Swept(s, frequency, now), frequency, now) == Swept(s, frequency, now)
  {
  }

  /** A row of the habits table; id, owner and frequency are never updated by these routes. */
  class HabitRecord {
    const id: int
    const userId: int
    const frequency: Option<string>
    var isCompleted: bool
    var completedAt: Option<int>
    var streak: Option<int>

    function State(): RowState
      reads this
    {
      RowState(isCompleted, completedAt, streak)
    }

    /** The row INSERT creates: not completed, no completion time, streak 0. */
    constructor (id: int, userId: int, frequency: Option<string>)
      ensures this.id == id && this.userId == userId && this.frequency == frequency
      ensures State() == RowState(false, None, Some(0))
    {
      this.id := id;
      this.userId := userId;
      this.frequency := frequency;
      isCompleted := false;
      completedAt := None;
      streak := Some(0);
    }

    /** One row of the GET sweep: UPDATE ... SET is_completed = false, completed_at = NULL when due. */
    method ResetIfDue(now: int)
      modifies this
      ensures State() == Swept(old(State()), frequency, now)
    {
      if isCompleted && NeedsReset(completedAt, frequency, now) {
        isCompleted := false;
        completedAt := None;
      }
    }

    /**
     * POST /:habit_id/complete on this row: when due, the row is first reset (streak 0);
     * a row already completed and not due is refused and left alone; otherwise it becomes
     * completed now, with streak 1 after a reset and the stored streak + 1 otherwise.
     */
    method Complete(now: int) returns (outcome: CompleteOutcome)
      modifies this
      ensures var due := NeedsReset(old(completedAt), frequency, now);
              if old(isCompleted) && !due then
                outcome == AlreadyCompleted && State() == old(State())
              else
                var n := if due then 1 else StoredStreak(old(streak)) + 1;
                outcome == Completed(n) && State() == RowState(true, Some(now), Some(n))
      ensures outcome.Completed? ==> !NeedsReset(completedAt, frequency, now)
    {
      var shouldReset := NeedsReset(completedAt, frequency, now);
      var wasCompleted := isCompleted;
      var previousStreak := streak;
      if shouldReset {
        isCompleted := false;
        streak := Some(0);
        completedAt := None;
      }
      if wasCompleted && !shouldReset {
        return AlreadyCompleted;
      }
      var newStreak := if shouldReset then 1 else StoredStreak(previousStreak) + 1;
      isCompleted := true;
      streak := Some(newStreak);
      completedAt := Some(now);
      outcome := Completed(newStreak);
    }
  }

  /**
   * GET /: every row of the user's habits that is completed and due is cleared; the others,
   * and every streak, are left as they were.
   */
  method Sweep(habits: seq<HabitRecord>, now: int)
    modifies set h | h in habits
    ensures forall h :: h in habits ==> h.State() == Swept(old(h.State()), h.frequency, now)
    ensures forall h :: h in habits ==> !(h.isCompleted && NeedsReset(h.completedAt, h.frequency, now))
  {
    for i := 0 to |habits|
      invariant forall h :: h in habits[..i] ==> h.State() == Swept(old(h.State()), h.frequency, now)
      invariant forall h :: h in habits && h !in habits[..i] ==> h.State() == old(h.State())
    {
      var h := habits[i];
      SweptIdempotent(old(h.State()), h.frequency, now);
      h.ResetIfDue(now);
      assert habits[..i + 1] == habits[..i] + [h];
    }
    assert habits[..|habits|] == habits;
  }

  /** The first row with this id owned by this user (WHERE id = ... AND user_id = ...). */
  function FindRow(habits: seq<HabitRecord>, habitId: int, userId: int): (r: Option<HabitRecord>)
    ensures r.Some? ==> r.value in habits && r.value.id == habitId && r.value.userId == userId
    ensures r.None? ==> forall h :: h in habits ==> !(h.id == habitId && h.userId == userId)
  {
    if habits == [] then None
    else if habits[0].id == habitId && habits[0].userId == userId then Some(habits[0])
    else FindRow(habits[1..], habitId, userId)
  }

  /** POST /:habit_id/complete: 404 when the user owns no such habit, else the row transition. */
  method CompleteHabit(habits: seq<HabitRecord>, habitId: int, userId: int, now: int) returns (outcome: CompleteOutcome)
    modifies if FindRow(habits, habitId, userId).Some? then {FindRow(habits, habitId, userId).value} else {}
    ensures outcome == NotFound <==> FindRow(habits, habitId, userId).None?
    ensures FindRow(habits, habitId, userId).Some? ==>
              var h := FindRow(habits, habitId, userId).value;
              var due := NeedsReset(old(h.completedAt), h.frequency, now);
              (outcome == AlreadyCompleted <==> old(h.isCompleted) && !due)
              && (outcome == AlreadyCompleted ==> h.State() == old(h.State()))
              && (outcome.Completed? ==> outcome.streak == (if due then 1 else StoredStreak(old(h.streak)) + 1))
              && (outcome.Completed? ==> h.State() == RowState(true, Some(now), Some(outcome.streak)))
  {
    var row := FindRow(habits, habitId, userId);
    if row.None? {
      return NotFound;
    }
    outcome := row.value.Complete(now);
  }

  /**
   * Without a sweep in between, completing a daily habit on two consecutive days leaves a
   * streak of 1: the second completion finds the first one on a different date and resets.
   */
  method CompleteDailyTwice(day: int) returns (first: CompleteOutcome, second: CompleteOutcome)
    ensures first == Completed(1) && second == Completed(1)
  {
    var h := new HabitRecord(1, 1, Some("daily"));
    first := h.Complete(day * MsPerDay);
    second := h.Complete((day + 1) * MsPerDay);
  }

  /**
   * With the sweep of GET / between them (as the dashboard does), the second completion
   * finds completed_at cleared, is not reset and increments the stored streak, whether
   * or not a period was missed in between.
   */
  method CompleteWithSweepBetween(day: int, gap: nat) returns (first: CompleteOutcome, second: CompleteOutcome)
    requires gap >= 1
    ensures first == Completed(1) && second == Completed(2)
  {
    var h := new HabitRecord(1, 1, Some("daily"));
    first := h.Complete(day * MsPerDay);
    Sweep([h], (day + gap) * MsPerDay);
    second := h.Complete((day + gap) * MsPerDay);
  }
}
