/** The two tables the habit engine reads, as in-memory values. */
module Tables {
  import opened Options

  /**
   * A row of habit_logs: the habit it belongs to, its DATE as a day number, and its
   * status (true when the row counts as a completion).
   */
  datatype HabitLog = HabitLog(habitId: int, day: int, status: bool)

  /** The frequency column of the habits table by habit id; None is SQL NULL. */
  type FrequencyColumn = map<int, Option<string>>

  /** Does the log record a completion of the habit? (WHERE habit_id = ... AND status = true) */
  predicate IsCompletionOf(l: HabitLog, habitId: int) {
    l.habitId == habitId && l.status
  }
}
