/** The analytics panel's derived numbers (components/Analytics.tsx): the
    today / week / month totals, the per-day clipped totals of the 7-day
    trend, and each task's row of the daily breakdown. All are folds over
    the ledger; the window and day boundaries and the days left to a goal
    date are parameters, since they come from the local calendar. */
module Analytics {
  import opened Types
  import opened Ledger
  import opened Format

  const MsPerDay: int := 86_400_000

  /** `!log.endTs` skips a log that is open, and also one whose end is the
      instant 0. */
  predicate Counted(l: TimeLog) {
    l.endTs.Some? && l.endTs.value != 0
  }

  /** The full, unclipped duration of a counted log; 0 for any other. */
  function Span(l: TimeLog): int {
    if Counted(l) then l.endTs.value - l.startTs else 0
  }

  /** Every counted log ends no earlier than it starts, as `stopLog` with a
      forward-moving clock guarantees. */
  predicate Ordered(logs: seq<TimeLog>) {
    forall i :: 0 <= i < |logs| ==> Span(logs[i]) >= 0
  }

  // ----- window totals (Analytics.tsx 29-35) -----

  /** Counted time of the logs that start at or after `from`. */
  function WindowTotal(logs: seq<TimeLog>, from: int): (r: int)
    ensures Ordered(logs) ==> r >= 0
  {
    if |logs| == 0 then 0
    else
      var l := logs[|logs| - 1];
      WindowTotal(logs[..|logs| - 1], from) + (if l.startTs >= from then Span(l) else 0)
  }

  /** A log adds its full duration to a window exactly when it is counted
      and starts in the window; an open log adds nothing. */
  lemma WindowAppend(logs: seq<TimeLog>, l: TimeLog, from: int)
    ensures Counted(l) && l.startTs >= from ==>
      WindowTotal(logs + [l], from) == WindowTotal(logs, from) + (l.endTs.value - l.startTs)
    ensures !(Counted(l) && l.startTs >= from) ==> WindowTotal(logs + [l], from) == WindowTotal(logs, from)
  {
    assert (logs + [l])[..|logs|] == logs;
  }

  /** Starting a timer leaves every window total as it was. */
  lemma StartLogInvisible(logs: seq<TimeLog>, logId: Id, key: LogKey, now: int, from: int)
    ensures WindowTotal(StartLog(logs, logId, key, now), from) == WindowTotal(logs, from)
  {
    WindowAppend(logs, TimeLog(logId, key.taskId, key.subtaskId, now, None), from);
  }

  /** A later window start never counts more. */
  lemma {:induction false} WindowMono(logs: seq<TimeLog>, early: int, late: int)
    requires early <= late && Ordered(logs)
    ensures WindowTotal(logs, late) <= WindowTotal(logs, early)
  {
    if |logs| > 0 {
      WindowMono(logs[..|logs| - 1], early, late);
    }
  }

  datatype Totals = Totals(todayMs: int, weekMs: int, monthMs: int)

  /** Seven days before the start of today. */
  function WeekStart(todayStart: int): int { todayStart - 7 * MsPerDay }

  /** The `stats` totals. The month starts on its first day, never after
      today, so today's total is bounded by the week's and the month's. */
  function Stats(logs: seq<TimeLog>, todayStart: int, monthStart: int): (r: Totals)
    ensures Ordered(logs) && monthStart <= todayStart ==>
      0 <= r.todayMs <= r.weekMs && r.todayMs <= r.monthMs
  {
    if Ordered(logs) && monthStart <= todayStart then
      WindowMono(logs, WeekStart(todayStart), todayStart);
      WindowMono(logs, monthStart, todayStart);
      Totals(WindowTotal(logs, todayStart), WindowTotal(logs, WeekStart(todayStart)), WindowTotal(logs, monthStart))
    else
      Totals(WindowTotal(logs, todayStart), WindowTotal(logs, WeekStart(todayStart)), WindowTotal(logs, monthStart))
  }

  /** One closed 90-minute log that starts today shows as "01:30" in every
      window. */
  lemma NinetyMinutesToday(todayStart: int, monthStart: int, t: int)
    requires 0 <= monthStart <= todayStart <= t
    ensures var r := Stats([TimeLog("l", "a", None, t, Some(t + 5_400_000))], todayStart, monthStart);
      r == Totals(5_400_000, 5_400_000, 5_400_000) && FormatHHMM(r.todayMs) == "01:30"
  {
    var logs := [TimeLog("l", "a", None, t, Some(t + 5_400_000))];
    assert logs[..0] == [];
    assert WindowTotal(logs, todayStart) == 5_400_000;
    assert WindowTotal(logs, WeekStart(todayStart)) == 5_400_000;
    assert WindowTotal(logs, monthStart) == 5_400_000;
    assert HHMMFields(5_400_000) == (1, 30);
    assert NatToString(30) == NatToString(3) + ['0'] == "30";
    assert Pad(1) == "01" && Pad(30) == "30";
  }

  // ----- clipped overlap (Analytics.tsx 45-50, 60-64) -----

  /** The part of a counted log inside [lo, hi): the clip
      `max(start, lo)`, `min(end, hi)`, and nothing when they cross. */
  function Overlap(l: TimeLog, lo: int, hi: int): (c: int)
    ensures c >= 0
    ensures c > 0 ==> Counted(l) && c <= Span(l) && c <= hi - lo
    ensures Counted(l) && lo <= l.startTs <= l.endTs.value <= hi ==> c == Span(l)
  {
    if !Counted(l) then 0
    else
      var start := Max(l.startTs, lo);
      var end := Min(l.endTs.value, hi);
      if end > start then end - start else 0
  }

  /** Clipping to two abutting intervals splits the clip to their union. */
  lemma OverlapSplit(l: TimeLog, lo: int, mid: int, hi: int)
    requires lo <= mid <= hi
    ensures Overlap(l, lo, mid) + Overlap(l, mid, hi) == Overlap(l, lo, hi)
  {
  }

  /** Two disjoint intervals together take no more than the log's length. */
  lemma OverlapDisjoint(l: TimeLog, a: int, b: int, c: int, d: int)
    requires b <= c
    ensures Overlap(l, a, b) + Overlap(l, c, d) <= Max(0, Span(l))
  {
    if a <= b && c <= d {
      OverlapSplit(l, a, b, c);
      OverlapSplit(l, a, c, d);
    }
  }

  /** The end of a day as the source writes it: `T23:59:59.999`, one
      millisecond before the next midnight. */
  function DayEndAsWritten(dayStart: int): int { dayStart + MsPerDay - 1 }

  /** The end of a day taken as the next midnight, so the day is the
      half-open interval [dayStart, dayStart + 24 h). */
  function DayEnd(dayStart: int): (r: int)
    ensures r - dayStart == MsPerDay
  {
    dayStart + MsPerDay
  }

  /** As written, a log from 23:30 to 00:30 is credited 29:59.999 to the
      first day and 30:00 to the second: the millisecond just before
      midnight belongs to neither day. */
  lemma MidnightLosesOneMs(dayStart: int)
    requires dayStart >= 0
    ensures var l := TimeLog("l", "a", None, dayStart + MsPerDay - 1_800_000, Some(dayStart + MsPerDay + 1_800_000));
      var next := dayStart + MsPerDay;
      && Overlap(l, dayStart, DayEndAsWritten(dayStart)) == 1_799_999
      && Overlap(l, next, DayEndAsWritten(next)) == 1_800_000
      && Overlap(l, dayStart, DayEndAsWritten(dayStart)) + Overlap(l, next, DayEndAsWritten(next)) == Span(l) - 1
  {
  }

  /** With half-open days, a log that lies within two adjacent days is
      credited to them in full: 23:30 to 00:30 gives 30 minutes to each. */
  lemma AdjacentDaysExact(l: TimeLog, dayStart: int)
    requires Counted(l)
    requires dayStart <= l.startTs <= l.endTs.value <= dayStart + 2 * MsPerDay
    ensures Overlap(l, dayStart, DayEnd(dayStart)) + Overlap(l, DayEnd(dayStart), DayEnd(DayEnd(dayStart))) == Span(l)
  {
    OverlapSplit(l, dayStart, DayEnd(dayStart), DayEnd(DayEnd(dayStart)));
  }

  /** The corrected day on the same 23:30 to 00:30 log: 30 minutes each. */
  lemma MidnightSplitsEvenly(dayStart: int)
    requires dayStart >= 0
    ensures var l := TimeLog("l", "a", None, dayStart + MsPerDay - 1_800_000, Some(dayStart + MsPerDay + 1_800_000));
      && Overlap(l, dayStart, DayEnd(dayStart)) == 1_800_000
      && Overlap(l, DayEnd(dayStart), DayEnd(DayEnd(dayStart))) == 1_800_000
  {
  }

  // ----- 7-day trend (Analytics.tsx 40-53) -----

  /** Counted time of all logs, orphans included, clipped to [lo, hi). */
  function DayTotal(logs: seq<TimeLog>, lo: int, hi: int): (r: int)
    ensures r >= 0
  {
    if |logs| == 0 then 0
    else DayTotal(logs[..|logs| - 1], lo, hi) + Overlap(logs[|logs| - 1], lo, hi)
  }

  /** Two adjacent half-open days together hold exactly what the two-day
      span holds: nothing is lost at midnight. */
  lemma {:induction false} TrendAdjacentDays(logs: seq<TimeLog>, dayStart: int)
    ensures DayTotal(logs, dayStart, DayEnd(dayStart)) + DayTotal(logs, DayEnd(dayStart), DayEnd(DayEnd(dayStart)))
         == DayTotal(logs, dayStart, dayStart + 2 * MsPerDay)
  {
    if |logs| > 0 {
      TrendAdjacentDays(logs[..|logs| - 1], dayStart);
      OverlapSplit(logs[|logs| - 1], dayStart, DayEnd(dayStart), DayEnd(DayEnd(dayStart)));
    }
  }

  /** When every counted log lies within the day, the day's clipped total is
      the window total from the day's start. */
  lemma {:induction false} DayTotalOfContainedLogs(logs: seq<TimeLog>, lo: int, hi: int)
    requires forall i :: 0 <= i < |logs| && Counted(logs[i]) ==> lo <= logs[i].startTs <= logs[i].endTs.value <= hi
    ensures DayTotal(logs, lo, hi) == WindowTotal(logs, lo)
  {
    if |logs| > 0 {
      DayTotalOfContainedLogs(logs[..|logs| - 1], lo, hi);
    }
  }

  /** Counted logs that run through the last millisecond before `e`: they
      start before `e` and end at or after it. */
  function Crossing(logs: seq<TimeLog>, e: int): nat {
    if |logs| == 0 then 0
    else
      var l := logs[|logs| - 1];
      Crossing(logs[..|logs| - 1], e) + (if Counted(l) && l.startTs < e <= l.endTs.value then 1 else 0)
  }

  /** Ending the clip one millisecond early costs a log that millisecond
      exactly when it runs through it. */
  lemma OverlapLastMs(l: TimeLog, lo: int, e: int)
    requires lo < e
    ensures Overlap(l, lo, e) == Overlap(l, lo, e - 1) + (if Counted(l) && l.startTs < e <= l.endTs.value then 1 else 0)
  {
  }

  lemma {:induction false} DayTotalLastMs(logs: seq<TimeLog>, lo: int, e: int)
    requires lo < e
    ensures DayTotal(logs, lo, e) == DayTotal(logs, lo, e - 1) + Crossing(logs, e)
  {
    if |logs| > 0 {
      DayTotalLastMs(logs[..|logs| - 1], lo, e);
      OverlapLastMs(logs[|logs| - 1], lo, e);
    }
  }

  /** One trend day as the source computes it, clipped at `T23:59:59.999`:
      the half-open day's total less one millisecond for every log that
      runs on past midnight. */
  function TrendDay(logs: seq<TimeLog>, dayStart: int): (r: int)
    ensures r >= 0
    ensures r + Crossing(logs, DayEnd(dayStart)) == DayTotal(logs, dayStart, DayEnd(dayStart))
  {
    DayTotalLastMs(logs, dayStart, DayEnd(dayStart));
    DayTotal(logs, dayStart, DayEndAsWritten(dayStart))
  }

  /** The trend series: one total per day start, in order, each clipped at
      the source's day end. */
  function Trend(logs: seq<TimeLog>, dayStarts: seq<int>): (r: seq<int>)
    ensures |r| == |dayStarts|
    ensures forall i :: 0 <= i < |r| ==>
      0 <= r[i] && r[i] + Crossing(logs, DayEnd(dayStarts[i])) == DayTotal(logs, dayStarts[i], DayEnd(dayStarts[i]))
  {
    seq(|dayStarts|, i requires 0 <= i < |dayStarts| => TrendDay(logs, dayStarts[i]))
  }

  /** The trend on half-open days: each entry adds back the millisecond
      the source loses per log running past midnight. */
  function TrendCorrected(logs: seq<TimeLog>, dayStarts: seq<int>): (r: seq<int>)
    ensures |r| == |dayStarts|
    ensures forall i :: 0 <= i < |r| ==> r[i] == Trend(logs, dayStarts)[i] + Crossing(logs, DayEnd(dayStarts[i]))
  {
    seq(|dayStarts|, i requires 0 <= i < |dayStarts| => DayTotal(logs, dayStarts[i], DayEnd(dayStarts[i])))
  }

  /** On half-open days, two consecutive trend entries together hold
      exactly the two-day total. */
  lemma TrendCorrectedAdjacent(logs: seq<TimeLog>, dayStarts: seq<int>, i: nat)
    requires i + 1 < |dayStarts| && dayStarts[i + 1] == DayEnd(dayStarts[i])
    ensures TrendCorrected(logs, dayStarts)[i] + TrendCorrected(logs, dayStarts)[i + 1]
         == DayTotal(logs, dayStarts[i], dayStarts[i] + 2 * MsPerDay)
  {
    TrendAdjacentDays(logs, dayStarts[i]);
  }

  // ----- daily breakdown (Analytics.tsx 55-83) -----

  /** Counted time of the logs of task `taskId`, clipped to [lo, hi). */
  function ActualMs(logs: seq<TimeLog>, taskId: Id, lo: int, hi: int): (r: int)
    ensures 0 <= r <= DayTotal(logs, lo, hi)
  {
    if |logs| == 0 then 0
    else
      var l := logs[|logs| - 1];
      ActualMs(logs[..|logs| - 1], taskId, lo, hi) + (if l.taskId == taskId then Overlap(l, lo, hi) else 0)
  }

  /** Counted, unclipped time of the logs of task `taskId`. */
  function ProjectDoneMs(logs: seq<TimeLog>, taskId: Id): (r: int)
    ensures Ordered(logs) ==> r >= 0
  {
    if |logs| == 0 then 0
    else
      var l := logs[|logs| - 1];
      ProjectDoneMs(logs[..|logs| - 1], taskId) + (if l.taskId == taskId then Span(l) else 0)
  }

  /** A day's share of a task never exceeds the task's total. */
  lemma {:induction false} ActualWithinProject(logs: seq<TimeLog>, taskId: Id, lo: int, hi: int)
    requires Ordered(logs)
    ensures ActualMs(logs, taskId, lo, hi) <= ProjectDoneMs(logs, taskId)
  {
    if |logs| > 0 {
      ActualWithinProject(logs[..|logs| - 1], taskId, lo, hi);
      assert Span(logs[|logs| - 1]) >= 0;
    }
  }

  /** The task rows' sum over a list of task ids. */
  function SumActual(logs: seq<TimeLog>, ids: seq<Id>, lo: int, hi: int): int {
    if |ids| == 0 then 0 else ActualMs(logs, ids[0], lo, hi) + SumActual(logs, ids[1..], lo, hi)
  }

  /** Clipped time of the logs whose task is not among `ids`. */
  function OrphanMs(logs: seq<TimeLog>, ids: seq<Id>, lo: int, hi: int): (r: int)
    ensures r >= 0
  {
    if |logs| == 0 then 0
    else
      var l := logs[|logs| - 1];
      OrphanMs(logs[..|logs| - 1], ids, lo, hi) + (if l.taskId in ids then 0 else Overlap(l, lo, hi))
  }

  lemma {:induction false} SumActualAppend(logs: seq<TimeLog>, l: TimeLog, ids: seq<Id>, lo: int, hi: int)
    requires UniqueIds(ids)
    ensures SumActual(logs + [l], ids, lo, hi)
         == SumActual(logs, ids, lo, hi) + (if l.taskId in ids then Overlap(l, lo, hi) else 0)
  {
    if |ids| > 0 {
      assert (logs + [l])[..|logs|] == logs;
      assert UniqueIds(ids[1..]) by {
        forall i, j | 0 <= i < j < |ids| - 1 ensures ids[1..][i] != ids[1..][j] {
          assert ids[1..][i] == ids[i + 1] && ids[1..][j] == ids[j + 1];
        }
      }
      SumActualAppend(logs, l, ids[1..], lo, hi);
      if l.taskId == ids[0] {
        forall k | 0 <= k < |ids| - 1 ensures ids[1..][k] != l.taskId {
          assert ids[1..][k] == ids[k + 1];
        }
      }
      assert ids == [ids[0]] + ids[1..];
    }
  }

  /** The breakdown matches logs to tasks by id: the task rows share out the
      day's total among the tasks, and the time of logs whose task is gone
      appears in no row. */
  lemma {:induction false} BreakdownPartitionsDay(logs: seq<TimeLog>, ids: seq<Id>, lo: int, hi: int)
    requires UniqueIds(ids)
    ensures SumActual(logs, ids, lo, hi) + OrphanMs(logs, ids, lo, hi) == DayTotal(logs, lo, hi)
  {
    if |logs| == 0 {
      SumActualZero(ids, lo, hi);
    } else {
      var init := logs[..|logs| - 1];
      var l := logs[|logs| - 1];
      BreakdownPartitionsDay(init, ids, lo, hi);
      assert logs == init + [l];
      SumActualAppend(init, l, ids, lo, hi);
    }
  }

  lemma {:induction false} SumActualZero(ids: seq<Id>, lo: int, hi: int)
    ensures SumActual([], ids, lo, hi) == 0
  {
    if |ids| > 0 {
      SumActualZero(ids[1..], lo, hi);
    }
  }

  /** Hours still to log: `max(0, goal - done)`. */
  function RemainingMs(goalMs: int, doneMs: int): (r: int)
    ensures r >= 0 && (r == 0 <==> doneMs >= goalMs)
    ensures r > 0 ==> doneMs + r == goalMs
    ensures 0 <= doneMs && 0 <= goalMs ==> r <= goalMs
  {
    Max(0, goalMs - doneMs)
  }

  /** A goal date is set when the field is present and non-empty. */
  predicate HasGoalDate(t: Task) {
    t.goalDate.Some? && |t.goalDate.value| > 0
  }

  /** `diffDays`: the days from today to the goal date, as `daysUntil`
      rounds them up, or 0 without a goal date. */
  function DiffDays(t: Task, daysUntil: string -> int): (r: int)
    ensures !HasGoalDate(t) ==> r == 0
  {
    if HasGoalDate(t) then daysUntil(t.goalDate.value) else 0
  }

  /** Time to log today to meet the goal: the rest spread evenly over the
      days left, all of it once the date is today or past, none without a
      date. */
  function NeededToday(remMs: int, diffDays: int, hasDate: bool): (r: real)
    ensures diffDays > 0 ==> r * diffDays as real == remMs as real
    ensures diffDays <= 0 && hasDate ==> r == remMs as real
    ensures diffDays <= 0 && !hasDate ==> r == 0.0
    ensures remMs >= 0 ==> 0.0 <= r <= remMs as real
  {
    if diffDays > 0 then remMs as real / diffDays as real
    else if hasDate then remMs as real
    else 0.0
  }

  /** A 10-hour goal with 2 hours logged and 4 days left needs 2 hours today. */
  lemma PacingExample()
    ensures NeededToday(RemainingMs(10 * MsPerHour, 2 * MsPerHour), 4, true) == (2 * MsPerHour) as real
  {
  }

  /** The row's status: on track when the day's time reaches the daily goal,
      or the needed-today pace when no daily goal is set. */
  predicate OnTrack(actualMs: int, dailyGoalMs: int, neededMs: real) {
    actualMs as real >= (if dailyGoalMs != 0 then dailyGoalMs as real else neededMs)
  }

  /** The table's check mark, which tries the needed-today pace first. */
  predicate TableCheck(actualMs: int, dailyGoalMs: int, neededMs: real) {
    actualMs as real >= (if neededMs != 0.0 then neededMs else dailyGoalMs as real)
  }

  /** The status and the check mark agree unless both a daily goal and a
      needed pace are set, differ, and the day's time lies between them. */
  lemma StatusAndCheckAgree(actualMs: int, dailyGoalMs: int, neededMs: real)
    ensures OnTrack(actualMs, dailyGoalMs, neededMs) != TableCheck(actualMs, dailyGoalMs, neededMs) <==>
      && dailyGoalMs != 0 && neededMs != 0.0
      && ((dailyGoalMs as real <= actualMs as real < neededMs) || (neededMs <= actualMs as real < dailyGoalMs as real))
  {
  }

  /** A daily goal of 1 h, a pace of 2 h and 1.5 h logged: the row says
      'On Track' but shows no check mark. */
  lemma StatusCheckDiverge()
    ensures OnTrack(5_400_000, MsPerHour, (2 * MsPerHour) as real)
    ensures !TableCheck(5_400_000, MsPerHour, (2 * MsPerHour) as real)
  {
  }

  /** One breakdown row. */
  datatype Row = Row(id: Id, name: string, actualMs: int, dailyGoalMs: int, neededMs: real, onTrack: bool)

  function BreakdownRow(t: Task, logs: seq<TimeLog>, dayStart: int, daysUntil: string -> int): (r: Row)
    ensures r.id == t.id && r.name == t.name && r.dailyGoalMs == t.dailyGoalMs
    ensures 0 <= r.actualMs <= DayTotal(logs, dayStart, DayEndAsWritten(dayStart))
    ensures Ordered(logs) && 0 <= t.goalMs ==> 0.0 <= r.neededMs <= t.goalMs as real
    ensures r.onTrack <==> OnTrack(r.actualMs, r.dailyGoalMs, r.neededMs)
  {
    var actual := ActualMs(logs, t.id, dayStart, DayEndAsWritten(dayStart));
    var rem := RemainingMs(t.goalMs, ProjectDoneMs(logs, t.id));
    var needed := NeededToday(rem, DiffDays(t, daysUntil), HasGoalDate(t));
    Row(t.id, t.name, actual, t.dailyGoalMs, needed, OnTrack(actual, t.dailyGoalMs, needed))
  }

  /** `taskBreakdown`: one row per task, in task order. */
  function Breakdown(tasks: seq<Task>, logs: seq<TimeLog>, dayStart: int, daysUntil: string -> int): (r: seq<Row>)
    ensures |r| == |tasks|
    ensures forall i :: 0 <= i < |r| ==> r[i].id == tasks[i].id && r[i] == BreakdownRow(tasks[i], logs, dayStart, daysUntil)
  {
    seq(|tasks|, i requires 0 <= i < |tasks| => BreakdownRow(tasks[i], logs, dayStart, daysUntil))
  }
}
