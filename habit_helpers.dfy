/**
 * backend/habitHelpers.js: needsReset, the gate that lets a habit be completed once per
 * period, and calculateStreak, the count of consecutive periods with a completion.
 * The habits table is a frequency column by habit id, habit_logs a sequence of rows, and
 * "today" (todayUTC) a day number given by the caller.
 */
module HabitHelpers {
  import opened Options
  import opened Tables
  import opened Periods
  import opened Calendar
  import opened Text
  import opened Walks

  /** What needsReset settles to: null, a thrown TypeError, or canComplete. */
  datatype ResetAnswer = NotFound | Throws | Answer(canComplete: bool)

  /**
   * The completions of a habit dated inside a window (the WHERE clause of the needsReset
   * query), in table order.
   */
  function CompletionsIn(logs: seq<HabitLog>, habitId: int, w: Window): (r: seq<HabitLog>)
    ensures |r| <= |logs|
    ensures forall l :: l in r <==> l in logs && IsCompletionOf(l, habitId) && w.start <= l.day < w.end
  {
    if logs == [] then []
    else
      var rest := CompletionsIn(logs[1..], habitId, w);
      var l := logs[0];
      if IsCompletionOf(l, habitId) && w.start <= l.day < w.end then [l] + rest else rest
  }

  /**
   * needsReset(habit_id): NotFound for a missing habit, Throws when the frequency is NULL
   * (toLowerCase) or unrecognised (startDate stays undefined and toISOString throws), and
   * otherwise whether the habit can be completed, i.e. no completion lies in the current period.
   */
  function NeedsReset(frequencies: FrequencyColumn, logs: seq<HabitLog>, habitId: int, today: int): (r: ResetAnswer)
    ensures r == NotFound <==> habitId !in frequencies
    ensures r == Throws <==> habitId in frequencies && FrequencyOf(frequencies[habitId]).None?
    ensures r.Answer? ==>
              (r.canComplete <==>
                 forall l :: l in logs && IsCompletionOf(l, habitId) ==>
                   !(CurrentWindow(FrequencyOf(frequencies[habitId]).value, today).start <= l.day
                     < CurrentWindow(FrequencyOf(frequencies[habitId]).value, today).end))
  {
    if habitId !in frequencies then NotFound
    else match FrequencyOf(frequencies[habitId])
      case None => Throws
      case Some(f) =>
        var found := CompletionsIn(logs, habitId, CurrentWindow(f, today));
        assert found != [] ==> found[0] in found;
        Answer(|found| == 0)
  }

  /** Is some completion of the habit grouped under this period key? */
  predicate CompletedIn(f: Frequency, logs: seq<HabitLog>, habitId: int, key: int) {
    exists l :: l in logs && IsCompletionOf(l, habitId) && PeriodKey(f, l.day) == key
  }

  /** For a known frequency the gate is closed exactly when the current period has a completion. */
  lemma GateClosedIffCompleted(frequencies: FrequencyColumn, logs: seq<HabitLog>, habitId: int, today: int, f: Frequency)
    requires habitId in frequencies && FrequencyOf(frequencies[habitId]) == Some(f)
    ensures NeedsReset(frequencies, logs, habitId, today) == Answer(!CompletedIn(f, logs, habitId, PeriodKey(f, today)))
  {
    forall l | l in logs
      ensures CurrentWindow(f, today).start <= l.day < CurrentWindow(f, today).end
              <==> PeriodKey(f, l.day) == PeriodKey(f, today)
    {
      InWindowIffSameKey(f, today, l.day);
    }
  }

  /** Once closed, the gate stays closed for every later day of the same period. */
  lemma GateStaysClosed(frequencies: FrequencyColumn, logs: seq<HabitLog>, habitId: int, today: int, day: int)
    requires NeedsReset(frequencies, logs, habitId, today) == Answer(false)
    requires CurrentWindow(FrequencyOf(frequencies[habitId]).value, today).start <= day
             < CurrentWindow(FrequencyOf(frequencies[habitId]).value, today).end
    ensures NeedsReset(frequencies, logs, habitId, day) == Answer(false)
  {
    var f := FrequencyOf(frequencies[habitId]).value;
    SamePeriodSameWindow(f, today, day);
  }

  /** Adding rows to habit_logs never reopens a closed gate. */
  lemma GateClosedUnderAppend(frequencies: FrequencyColumn, logs: seq<HabitLog>, more: seq<HabitLog>, habitId: int, today: int)
    requires NeedsReset(frequencies, logs, habitId, today) == Answer(false)
    ensures NeedsReset(frequencies, logs + more, habitId, today) == Answer(false)
  {
    var f := FrequencyOf(frequencies[habitId]).value;
    var l :| l in logs && IsCompletionOf(l, habitId)
             && CurrentWindow(f, today).start <= l.day < CurrentWindow(f, today).end;
    assert l in logs + more;
  }

  /** Logging a completion dated today closes the gate for today. */
  lemma CompletingClosesGate(frequencies: FrequencyColumn, logs: seq<HabitLog>, habitId: int, today: int)
    requires habitId in frequencies && FrequencyOf(frequencies[habitId]).Some?
    ensures NeedsReset(frequencies, logs + [HabitLog(habitId, today, true)], habitId, today) == Answer(false)
  {
    var f := FrequencyOf(frequencies[habitId]).value;
    var l := HabitLog(habitId, today, true);
    assert l in logs + [l];
    assert CurrentWindow(f, today).start <= l.day < CurrentWindow(f, today).end;
  }

  // ---------------------------------------------------------------------------------------
  // The key pipeline of calculateStreak: logs.map(...).filter(...).sort(...) and new Set.

  /** The dates of the habit's completion logs (WHERE habit_id = ... AND status = true). */
  function CompletionDays(logs: seq<HabitLog>, habitId: int): (r: seq<int>)
    ensures |r| <= |logs|
    ensures forall d :: d in r <==> exists l :: l in logs && IsCompletionOf(l, habitId) && l.day == d
  {
    if logs == [] then []
    else
      var rest := CompletionDays(logs[1..], habitId);
      assert forall l :: l in logs <==> l == logs[0] || l in logs[1..];
      if IsCompletionOf(logs[0], habitId) then [logs[0].day] + rest else rest
  }

  /** Each date mapped to the key of its period. */
  function MapKeys(f: Frequency, days: seq<int>): (r: seq<int>)
    ensures |r| == |days|
    ensures forall i :: 0 <= i < |days| ==> r[i] == PeriodKey(f, days[i])
  {
    if days == [] then [] else [PeriodKey(f, days[0])] + MapKeys(f, days[1..])
  }

  /** The keys not after bound, in their order (the filter that drops future periods). */
  function NotAfter(keys: seq<int>, bound: int): (r: seq<int>)
    ensures |r| <= |keys|
    ensures forall k :: k in r <==> k in keys && k <= bound
  {
    if keys == [] then []
    else
      var rest := NotAfter(keys[1..], bound);
      assert forall k :: k in keys <==> k == keys[0] || k in keys[1..];
      if keys[0] <= bound then [keys[0]] + rest else rest
  }

  /** [...new Set(s)]: the first occurrence of each element, in order. */
  function Dedup(s: seq<int>): (r: seq<int>)
    ensures |r| <= |s|
    ensures forall x :: x in r <==> x in s
    ensures Distinct(r)
  {
    if s == [] then []
    else
      var rest := Dedup(s[..|s| - 1]);
      var last := s[|s| - 1];
      assert forall x :: x in s <==> x == last || x in s[..|s| - 1];
      if last in rest then rest else rest + [last]
  }

  /**
   * The keys calculateStreak walks over: logDates (daily, not deduplicated),
   * uniqueWeekStarts or uniqueMonthStarts.
   */
  function StreakKeys(f: Frequency, logs: seq<HabitLog>, habitId: int, today: int): (r: seq<int>)
    ensures forall k :: k in r <==> k <= PeriodKey(f, today) && CompletedIn(f, logs, habitId, k)
    ensures f != Daily ==> Distinct(r)
  {
    var days := CompletionDays(logs, habitId);
    var keys := NotAfter(MapKeys(f, days), PeriodKey(f, today));
    assert forall k :: k in MapKeys(f, days) <==> exists d :: d in days && PeriodKey(f, d) == k by {
      forall k | k in MapKeys(f, days) ensures exists d :: d in days && PeriodKey(f, d) == k {
        var i :| 0 <= i < |days| && MapKeys(f, days)[i] == k;
        assert days[i] in days;
      }
      forall k | exists d :: d in days && PeriodKey(f, d) == k ensures k in MapKeys(f, days) {
        var d :| d in days && PeriodKey(f, d) == k;
        var i :| 0 <= i < |days| && days[i] == d;
        assert MapKeys(f, days)[i] == k;
      }
    }
    if f == Daily then keys else Dedup(keys)
  }

  // ---------------------------------------------------------------------------------------
  // calculateStreak.

  /**
   * calculateStreak as a value: 0 for a missing habit, a NULL frequency (the thrown error
   * is caught), an unrecognised frequency, no completions, or a newest key older than the
   * previous period; otherwise the run of consecutive periods from the newest key.
   */
  function Streak(frequencies: FrequencyColumn, logs: seq<HabitLog>, habitId: int, today: int): (n: nat)
    ensures n > 0 ==> habitId in frequencies && FrequencyOf(frequencies[habitId]).Some?
  {
    if habitId !in frequencies then 0
    else match FrequencyOf(frequencies[habitId])
      case None => 0
      case Some(f) =>
        StreakOfKeys(f, StreakKeys(f, logs, habitId, today), today)
  }

  /** The streak counted from the period keys of the completions. */
  function StreakOfKeys(f: Frequency, keys: seq<int>, today: int): (n: nat)
    ensures n > 0 <==> keys != [] && (MaxOf(keys) == PeriodKey(f, today) || MaxOf(keys) == PreviousKey(f, today))
  {
    if keys == [] then 0
    else
      var newest := MaxOf(keys);
      if newest == PeriodKey(f, today) || newest == PreviousKey(f, today) then Run(Step(f), keys, newest)
      else 0
  }

  /** Only which keys are present matters to the count, not their order or repetition. */
  lemma StreakOfSameKeys(f: Frequency, a: seq<int>, b: seq<int>, today: int)
    requires forall x :: x in a <==> x in b
    ensures StreakOfKeys(f, a, today) == StreakOfKeys(f, b, today)
  {
    if a != [] {
      var x := a[0];
      assert x in a;
      MaxOfSameElements(a, b);
      RunSameElements(Step(f), a, b, MaxOf(a));
    }
  }

  /** calculateStreak(habit_id), with its backward while loop. */
  method CalculateStreak(frequencies: FrequencyColumn, logs: seq<HabitLog>, habitId: int, today: int)
    returns (streak: nat)
    ensures streak == Streak(frequencies, logs, habitId, today)
  {
    if habitId !in frequencies {
      return 0;
    }
    var frequency := FrequencyOf(frequencies[habitId]);
    if frequency.None? {
      return 0;
    }
    var f := frequency.value;
    var keys := StreakKeys(f, logs, habitId, today);
    if keys == [] {
      return 0;
    }
    var newest := MaxOf(keys);
    var start;
    if newest == PeriodKey(f, today) {
      start := PeriodKey(f, today);
    } else if newest == PreviousKey(f, today) {
      start := PreviousKey(f, today);
    } else {
      return 0;
    }
    streak := 1;
    var check := StepBack(f, start);
    ghost var lowest := MinOf(keys);
    while check in keys
      invariant streak + Run(Step(f), keys, check) == Run(Step(f), keys, start)
      decreases check - lowest
    {
      streak := streak + 1;
      check := StepBack(f, check);
    }
  }

  /** The streak is 0 when the habit is missing, its frequency unknown, or it has no completion. */
  lemma StreakZeroCases(frequencies: FrequencyColumn, logs: seq<HabitLog>, habitId: int, today: int)
    ensures habitId !in frequencies ==> Streak(frequencies, logs, habitId, today) == 0
    ensures habitId in frequencies && FrequencyOf(frequencies[habitId]).None? ==>
              Streak(frequencies, logs, habitId, today) == 0
    ensures (forall l :: l in logs ==> !IsCompletionOf(l, habitId)) ==>
              Streak(frequencies, logs, habitId, today) == 0
  {
  }

  /** The period the streak is counted from: the current one if completed, else the previous one. */
  function StreakStart(f: Frequency, logs: seq<HabitLog>, habitId: int, today: int): (start: int)
    ensures start == PeriodKey(f, today) || start == StepBack(f, PeriodKey(f, today))
  {
    PreviousIsStepBack(f, today);
    if CompletedIn(f, logs, habitId, PeriodKey(f, today)) then PeriodKey(f, today) else PreviousKey(f, today)
  }

  /**
   * When the current or the previous period holds a completion, the newest key is the
   * period the streak is counted from.
   */
  lemma NewestIsStreakStart(f: Frequency, logs: seq<HabitLog>, habitId: int, today: int)
    requires CompletedIn(f, logs, habitId, PeriodKey(f, today)) || CompletedIn(f, logs, habitId, PreviousKey(f, today))
    ensures StreakKeys(f, logs, habitId, today) != []
    ensures MaxOf(StreakKeys(f, logs, habitId, today)) == StreakStart(f, logs, habitId, today)
  {
    var current := PeriodKey(f, today);
    var previous := PreviousKey(f, today);
    PreviousIsStepBack(f, today);
    var keys := StreakKeys(f, logs, habitId, today);
    if CompletedIn(f, logs, habitId, current) {
      assert current in keys;
    } else {
      assert previous in keys;
      var newest := MaxOf(keys);
      var l :| l in logs && IsCompletionOf(l, habitId) && PeriodKey(f, l.day) == newest;
      assert newest < current;
      KeyBeforeCurrent(f, today, l.day);
    }
  }

  /**
   * The grace rule: the streak is non-zero exactly when the habit was completed in the
   * current period or in the one before it.
   */
  lemma StreakGrace(frequencies: FrequencyColumn, logs: seq<HabitLog>, habitId: int, today: int, f: Frequency)
    requires habitId in frequencies && FrequencyOf(frequencies[habitId]) == Some(f)
    ensures Streak(frequencies, logs, habitId, today) > 0
            <==> CompletedIn(f, logs, habitId, PeriodKey(f, today))
                 || CompletedIn(f, logs, habitId, PreviousKey(f, today))
  {
    var keys := StreakKeys(f, logs, habitId, today);
    if CompletedIn(f, logs, habitId, PeriodKey(f, today)) || CompletedIn(f, logs, habitId, PreviousKey(f, today)) {
      NewestIsStreakStart(f, logs, habitId, today);
    } else if keys != [] {
      assert MaxOf(keys) in keys;
    }
  }

  /** Consecutive periods back from start hold a completion: n of them do, the one before them does not. */
  predicate CompletedRun(f: Frequency, logs: seq<HabitLog>, habitId: int, start: int, n: nat) {
    (forall i: nat :: i < n ==> CompletedIn(f, logs, habitId, Back(Step(f), start, i)))
    && !CompletedIn(f, logs, habitId, Back(Step(f), start, n))
  }

  /**
   * The streak is exactly the number of consecutive completed periods counted back from
   * the current period, or from the previous one when the current one has none.
   */
  lemma StreakIsRun(frequencies: FrequencyColumn, logs: seq<HabitLog>, habitId: int, today: int, f: Frequency, n: nat)
    requires habitId in frequencies && FrequencyOf(frequencies[habitId]) == Some(f)
    ensures Streak(frequencies, logs, habitId, today) == n
            <==> CompletedRun(f, logs, habitId, StreakStart(f, logs, habitId, today), n)
  {
    var start := StreakStart(f, logs, habitId, today);
    if CompletedIn(f, logs, habitId, PeriodKey(f, today)) || CompletedIn(f, logs, habitId, PreviousKey(f, today)) {
      StreakIsRunFromStart(frequencies, logs, habitId, today, f, n);
    } else {
      StreakGrace(frequencies, logs, habitId, today, f);
      assert Back(Step(f), start, 0) == start;
    }
  }

  /** The case of StreakIsRun where the current or the previous period holds a completion. */
  lemma StreakIsRunFromStart(frequencies: FrequencyColumn, logs: seq<HabitLog>, habitId: int, today: int, f: Frequency, n: nat)
    requires habitId in frequencies && FrequencyOf(frequencies[habitId]) == Some(f)
    requires CompletedIn(f, logs, habitId, PeriodKey(f, today)) || CompletedIn(f, logs, habitId, PreviousKey(f, today))
    ensures Streak(frequencies, logs, habitId, today) == n
            <==> CompletedRun(f, logs, habitId, StreakStart(f, logs, habitId, today), n)
  {
    var keys := StreakKeys(f, logs, habitId, today);
    var start := StreakStart(f, logs, habitId, today);
    NewestIsStreakStart(f, logs, habitId, today);
    assert Streak(frequencies, logs, habitId, today) == Run(Step(f), keys, start);
    RunIffRunLength(Step(f), keys, start, n);
    WalkKeys(f, logs, habitId, today, start);
    assert RunLength(Step(f), keys, start, n) <==> CompletedRun(f, logs, habitId, start, n);
  }

  /** Walking back from a period not after today's, a key is present exactly when its period was completed. */
  lemma WalkKeys(f: Frequency, logs: seq<HabitLog>, habitId: int, today: int, start: int)
    requires start <= PeriodKey(f, today)
    ensures forall i: nat :: Back(Step(f), start, i) in StreakKeys(f, logs, habitId, today)
                             <==> CompletedIn(f, logs, habitId, Back(Step(f), start, i))
  {
    forall i: nat
      ensures Back(Step(f), start, i) in StreakKeys(f, logs, habitId, today)
              <==> CompletedIn(f, logs, habitId, Back(Step(f), start, i))
    {
      assert Back(Step(f), start, i) <= start;
    }
  }

  /** The streak never exceeds the number of distinct completed periods up to today's. */
  lemma StreakBound(frequencies: FrequencyColumn, logs: seq<HabitLog>, habitId: int, today: int, f: Frequency)
    requires habitId in frequencies && FrequencyOf(frequencies[habitId]) == Some(f)
    ensures Streak(frequencies, logs, habitId, today) <= |set k | k in StreakKeys(f, logs, habitId, today)|
    ensures f != Daily ==> Streak(frequencies, logs, habitId, today) <= |StreakKeys(f, logs, habitId, today)|
  {
    var keys := StreakKeys(f, logs, habitId, today);
    if keys != [] {
      var newest := MaxOf(keys);
      RunBound(Step(f), keys, newest);
      SubsetCard(set k | k in keys && k <= newest, set k | k in keys);
    }
    if f != Daily {
      DistinctCard(keys);
    }
  }

  /**
   * The streak depends only on which periods up to today's hold a completion: more logs in
   * an already completed period, logs of other habits, failed logs and future logs change nothing.
   */
  lemma StreakSamePeriods(frequencies: FrequencyColumn, logs: seq<HabitLog>, other: seq<HabitLog>, habitId: int, today: int, f: Frequency)
    requires habitId in frequencies && FrequencyOf(frequencies[habitId]) == Some(f)
    requires forall k :: k <= PeriodKey(f, today) ==>
               (CompletedIn(f, logs, habitId, k) <==> CompletedIn(f, other, habitId, k))
    ensures Streak(frequencies, logs, habitId, today) == Streak(frequencies, other, habitId, today)
  {
    StreakOfSameKeys(f, StreakKeys(f, logs, habitId, today), StreakKeys(f, other, habitId, today), today);
  }

  /** Logging one more completion in a period that already has one leaves the streak as it is. */
  lemma ExtraLogSameStreak(frequencies: FrequencyColumn, logs: seq<HabitLog>, habitId: int, today: int, f: Frequency, extra: HabitLog)
    requires habitId in frequencies && FrequencyOf(frequencies[habitId]) == Some(f)
    requires CompletedIn(f, logs, habitId, PeriodKey(f, extra.day))
    ensures Streak(frequencies, logs + [extra], habitId, today) == Streak(frequencies, logs, habitId, today)
  {
    forall k | k <= PeriodKey(f, today)
      ensures CompletedIn(f, logs + [extra], habitId, k) <==> CompletedIn(f, logs, habitId, k)
    {
      if CompletedIn(f, logs, habitId, k) {
        var l :| l in logs && IsCompletionOf(l, habitId) && PeriodKey(f, l.day) == k;
        assert l in logs + [extra];
      }
      if CompletedIn(f, logs + [extra], habitId, k) {
        var l :| l in logs + [extra] && IsCompletionOf(l, habitId) && PeriodKey(f, l.day) == k;
        if l != extra {
          assert l in logs;
        }
      }
    }
    StreakSamePeriods(frequencies, logs + [extra], logs, habitId, today, f);
  }

  /** A closed gate (a completion this period) means a streak of at least one. */
  lemma ClosedGateHasStreak(frequencies: FrequencyColumn, logs: seq<HabitLog>, habitId: int, today: int)
    requires NeedsReset(frequencies, logs, habitId, today) == Answer(false)
    ensures Streak(frequencies, logs, habitId, today) >= 1
  {
    var f := FrequencyOf(frequencies[habitId]).value;
    GateClosedIffCompleted(frequencies, logs, habitId, today, f);
    StreakGrace(frequencies, logs, habitId, today, f);
  }

  // ---------------------------------------------------------------------------------------
  // Worked cases.

  /** A daily habit completed yesterday and today: closed for today, streak 2. */
  lemma DailyTwoDays(today: int)
    ensures var frequencies := map[1 := Some("daily")];
            var logs := [HabitLog(1, today - 1, true), HabitLog(1, today, true)];
            NeedsReset(frequencies, logs, 1, today) == Answer(false)
            && Streak(frequencies, logs, 1, today) == 2
  {
    var frequencies := map[1 := Some("daily")];
    var logs := [HabitLog(1, today - 1, true), HabitLog(1, today, true)];
    LowerOfFrequencyName("daily");
    assert logs[1] in logs && logs[0] in logs;
    assert CompletedIn(Daily, logs, 1, today);
    forall i: nat | i <= 2
      ensures Back(Step(Daily), today, i) == today - i
    {
      BackFixedStep(Daily, today, i);
    }
    assert !CompletedIn(Daily, logs, 1, today - 2);
    StreakIsRun(frequencies, logs, 1, today, Daily, 2);
  }

  /** A daily habit last completed two days ago has lost its streak. */
  lemma DailyGap(today: int)
    ensures Streak(map[1 := Some("daily")], [HabitLog(1, today - 2, true)], 1, today) == 0
  {
    LowerOfFrequencyName("daily");
    StreakGrace(map[1 := Some("daily")], [HabitLog(1, today - 2, true)], 1, today, Daily);
  }

  /** The three Monday completions of WeeklyThreeWeeks, grouped by week. */
  lemma ThreeMondays(monday: int, k: int)
    requires WeekDay(monday) == 1
    ensures var logs := [HabitLog(1, monday, true), HabitLog(1, monday + 7, true), HabitLog(1, monday + 14, true)];
            CompletedIn(Weekly, logs, 1, k) <==> k == monday || k == monday + 7 || k == monday + 14
  {
    var logs := [HabitLog(1, monday, true), HabitLog(1, monday + 7, true), HabitLog(1, monday + 14, true)];
    WeekStartUnique(monday, monday);
    WeekStartUnique(monday + 7, monday + 7);
    WeekStartUnique(monday + 14, monday + 14);
    assert logs[0] in logs && logs[1] in logs && logs[2] in logs;
  }

  /**
   * A weekly habit completed on the Mondays of three consecutive weeks, asked about later
   * in the following week: completable, streak 3 thanks to the grace rule.
   */
  lemma WeeklyThreeWeeks(monday: int, today: int)
    requires WeekDay(monday) == 1 && monday + 21 <= today < monday + 28
    ensures var frequencies := map[1 := Some("weekly")];
            var logs := [HabitLog(1, monday, true), HabitLog(1, monday + 7, true), HabitLog(1, monday + 14, true)];
            NeedsReset(frequencies, logs, 1, today) == Answer(true)
            && Streak(frequencies, logs, 1, today) == 3
  {
    var frequencies := map[1 := Some("weekly")];
    var logs := [HabitLog(1, monday, true), HabitLog(1, monday + 7, true), HabitLog(1, monday + 14, true)];
    LowerOfFrequencyName("weekly");
    WeekStartUnique(today, monday + 21);
    WeekStartLastWeek(today);
    GateClosedIffCompleted(frequencies, logs, 1, today, Weekly);
    var start := monday + 14;
    ThreeMondays(monday, monday + 21);
    assert StreakStart(Weekly, logs, 1, today) == start;
    forall i: nat | i <= 3
      ensures Back(Step(Weekly), start, i) == start - 7 * i
      ensures CompletedIn(Weekly, logs, 1, start - 7 * i) <==> i < 3
    {
      BackFixedStep(Weekly, start, i);
      ThreeMondays(monday, start - 7 * i);
    }
    StreakIsRun(frequencies, logs, 1, today, Weekly, 3);
  }
}
