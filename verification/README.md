# FocusFlow countdown, ledger and analytics core in Dafny

FocusFlow is a single-page focus timer. A user creates tasks with an hour
goal, adds 25- and 50-minute "focus" subtasks to them with preset buttons,
and starts and pauses countdowns. Every start opens an
interval in an append-only time ledger and every pause closes it. An
analytics panel sums the ledger into today / week / month totals, a 7-day
trend, and a per-task "actual vs. needed today" breakdown.

This project models that core as pure functions over immutable values:

- `Types` (types.dfy): the records `Task`, `Subtask` and `TimeLog`, and the state of both. Durations and instants are integer milliseconds. An hour goal is kept as its millisecond value.
- `Ledger` (ledger.dfy): `startLog` and `stopLog`, and the open-log counts they change.
- `Tick` (tick.dfy): the once-a-second countdown reconciliation, as a function of the instant `now`.
- `Engine` (engine.dfy): the handlers `addTask`, `toggleTask`, `toggleSubtask`, `addSubtask`, `restartTask`, `deleteTask` and `deleteSubtask`.
- `Invariant` (invariant.dfy) and `Session` (session.dfy): the agreement between run flags and open logs, and its preservation by every handler.
- `Quirks` (quirks.dfy): behaviours of the code as written that break or bend that agreement.
- `Ordering` (ordering.dfy): the pinned-first, urgency-second display order.
- `Analytics` (analytics.dfy): the totals, the trend and the breakdown.
- `Format` (format.dfy): `formatFull` and `formatHHMM`.
- `TaskCard` (taskcard.dfy): the card's `isActive` highlight and its subtask form.

Every handler takes the current instant `now` and fresh ids as parameters.
Day and window boundaries, and the number of days to a goal date, are also
parameters.

Two behaviours of the code matter for reading the model:
- `deleteTask` leaves a running task's log open. It only filters the task list (App.tsx:202-204). `Quirks.DeleteRunningTaskOrphansLog` shows the orphaned open log.
- The analytics day ends at `T23:59:59.999` (components/Analytics.tsx:44,57). A log from 23:30 to 00:30 is therefore credited 29:59.999 to the first day, not 30 minutes. `Analytics.Trend` and `Analytics.BreakdownRow` clip at that instant, as the code does. `Analytics.TrendCorrected` is the half-open day. See Findings.

## Model

| member | source | states |
|---|---|---|
| Types.IndexOf | App.tsx:126-127 | the position handlers act on: the first element with the id, and none exactly when no element has it |
| Ledger.StartLog | App.tsx:112-114 | appends exactly one open log for the key at `now`; every earlier log is kept unchanged |
| Ledger.StartLogCount | App.tsx:112-114 | the open count of the started key goes up by one; every other key's count is unchanged |
| Ledger.StartLogCounts | App.tsx:112-114 | for every key at once: the started key's open count rises by one and every other key keeps its count |
| Ledger.StartLogKeepsAtMostOne | App.tsx:112-114 | starting a key with no open log keeps "at most one open log per key" |
| Ledger.StopLog | App.tsx:116-118 | same length; each log that is open and has the key gets `endTs = now`; every other log is unchanged |
| Ledger.StopLogCount | App.tsx:116-118 | afterwards the key has no open log; every other key's count is unchanged |
| Ledger.StopLogCounts | App.tsx:116-118 | for every key at once: the stopped key ends with no open log and every other key keeps its count |
| Ledger.StopLogTotal | App.tsx:116-118 | the number of open logs drops by exactly the key's open count |
| Ledger.StopLogNoop | App.tsx:116-118 | with no open log for the key, stopLog returns the ledger unchanged |
| Ledger.StopLogKeepsAtMostOne | App.tsx:116-118 | stopping keeps "at most one open log per key" |
| Ledger.StopEach | App.tsx:129-130 | stopping a list of keys closes exactly the open logs whose key is listed |
| Ledger.StopEachCount | App.tsx:129-130 | listed keys end with no open log; other keys are untouched |
| Ledger.StopEachTotal | App.tsx:129-130 | closing distinct keys that each had one open log removes exactly one open log per key |
| Tick.Advance | App.tsx:57-64 | remaining time never grows; a changed countdown is never negative; a countdown that is not due is unchanged; a due one is charged the elapsed time, capped at what is left; it stops exactly when the elapsed time covers what was left; it never starts |
| Tick.TickAll | App.tsx:53-80 | only countdowns change: ids, names, goals and the order of tasks and subtasks are kept |
| Tick.TickCountdowns | App.tsx:57-74 | for every task and subtask countdown: no increase, never negative once changed, stopped at zero, unchanged when not due, never started |
| Tick.TickIdempotent | App.tsx:57-61 | two ticks at the same instant equal one |
| Tick.AdvanceCatchUp | App.tsx:58-61 | a tick at t1 then one at t2 ≥ t1 leaves the same remaining time and run flag as one tick at t2 (elapsed time is charged, not a fixed step) |
| Tick.TickCatchUp | App.tsx:53-80 | the same catch-up for every countdown of the task list |
| Tick.CatchUpKeepsExpiryInstant | App.tsx:60-62 | the catch-up does not extend to `lastUpdated`: an expired countdown keeps the instant at which it expired |
| Engine.AddTask | App.tsx:87-110 | without a positive parsed goal nothing changes. Otherwise one stopped task is prepended with a full countdown, no subtasks and not pinned. Its name defaults to "New Objective", a NaN daily goal becomes 0, and an empty date means none. The form's text fields are cleared and the urgency is kept |
| Engine.RunningSubKeys | App.tsx:130 | lists exactly the keys of the running subtasks, one per running subtask |
| Engine.ToggleTask | App.tsx:124-137 | pausing a running task stops it and every subtask, closes the task log and one log per running subtask, and keeps remaining times. Starting a stopped task opens one task log and leaves the subtasks alone. Other tasks are untouched |
| Engine.ToggleSubtask | App.tsx:139-164 | exactly the first subtask with the id flips its flag, and remaining times are kept. The task's flag ends as "some subtask runs"; other tasks are untouched and no log is removed. In every state, ledger or not in step: the subtask key's open count drops to 0 if the subtask ran and rises by one if not. The task key's count rises by one when the flag turns on and drops to 0 when it turns off. No other key's count changes |
| Engine.FlipSub | App.tsx:143-152 | only the first subtask with the id changes, and only its flag and timestamp; remaining times are kept; no log is removed. Its key's open count drops to 0 when it ran and rises by one when it did not; no other key's count changes; with no such subtask the ledger is unchanged |
| Engine.Resync | App.tsx:153-162 | the task's flag becomes "some subtask runs" with its remaining time kept. When the flag turns on the task key's open count rises by one, and when it turns off it drops to 0. No other key's count changes, and the ledger is untouched when the flag does not change |
| Engine.ExtendsTrans | App.tsx:139-164 | a subtask toggle followed by the task resync again only closes open logs and appends new ones |
| Engine.AddSubtask | App.tsx:167-180 | appends one stopped subtask with a full countdown to the task; logs are untouched; an unknown task changes nothing |
| Engine.RestartTask | App.tsx:183-199 | the task and all subtasks are stopped and refilled from their goals; only the logs of running entities are closed; no log is removed |
| Engine.DeleteTask | App.tsx:202-204 | exactly the tasks with other ids remain and the ledger is unchanged, including open logs. An unknown id changes nothing. Under unique ids the one matching task is cut out and the rest keep their order |
| Engine.DeleteSubtask | App.tsx:207-214 | only subtasks with the id are removed. The subtask's log is closed only if the first such subtask was running, and the task's flag is not resynchronised. An unknown subtask changes nothing. Under unique ids the one matching subtask is cut out and the rest keep their order |
| Engine.RemoveTasksKeeps | App.tsx:202 | a task survives the filter exactly when it was present and carries another id |
| Engine.RemoveSubsKeeps | App.tsx:211 | a subtask survives the filter exactly when it was present and carries another id |
| Engine.RemoveTasksAt | App.tsx:202 | the filter keeps the list when no task has the id, and under unique ids removes just the first match, keeping the order |
| Engine.RemoveSubsAt | App.tsx:211 | the filter keeps the list when no subtask has the id, and under unique ids removes just the first match, keeping the order |
| Invariant.ToggleTaskCascade | App.tsx:128-131 | in a consistent state, pausing a task closes exactly one log for the task plus one per running subtask |
| Invariant.ToggleTaskPreserves | App.tsx:124-137 | toggleTask keeps run flags and open logs in agreement |
| Invariant.ToggleSubtaskPreserves | App.tsx:139-164 | toggleSubtask, with its resync, keeps the agreement |
| Invariant.FlipSubTracks | App.tsx:143-152 | opening or closing the toggled subtask's log keeps every subtask of the task tracked, keeps at most one open log per key, and changes no other task's counts |
| Invariant.ResyncTracks | App.tsx:153-162 | the task-level log is opened or closed exactly when the task's flag changes, so the task stays tracked |
| Invariant.RestartTaskPreserves | App.tsx:183-199 | restartTask keeps the agreement |
| Invariant.DeleteTaskPreserves | App.tsx:202-204 | deleteTask keeps the agreement for the remaining tasks |
| Invariant.DeleteSubtaskPreserves | App.tsx:207-214 | deleteSubtask keeps the agreement |
| Invariant.AddTaskPreserves | App.tsx:87-110 | adding a task under an unused id keeps the agreement |
| Invariant.AddSubtaskPreserves | App.tsx:167-180 | adding a subtask under an unused id keeps the agreement |
| Invariant.TickPreservesWithoutExpiry | App.tsx:53-82 | a tick that expires no countdown keeps the agreement |
| Session.StepPreserves | App.tsx:87-214 | every handler, and every tick without expiry, keeps the agreement given fresh ids |
| Session.RunPreserves | App.tsx:87-214 | any session of such actions from a consistent state ends consistent |
| Quirks.ExpiryThenStartOpensSecondLog | App.tsx:62 | expiry stops the task but leaves its log open, breaking the agreement; restarting then gives the task two open logs |
| Quirks.ExpiryThenRestartCountsTwice | App.tsx:116-118 | pausing after that closes both logs at once: two seconds of running are recorded as four |
| Quirks.DeleteRunningTaskOrphansLog | App.tsx:202-204 | deleting a running task leaves an open log whose task no longer exists |
| Quirks.SubtaskRoundTripStopsDirectTask | App.tsx:153-161 | a task started directly is stopped by starting and pausing one of its subtasks |
| Quirks.DirectTaskStoppedBySubtask | App.tsx:153-161 | the same on a concrete task, ending with its log closed |
| Ordering.CompareIsRankOrder | App.tsx:242-249 | the comparator's sign is the order of a rank: pinned before unpinned, then high, medium, low when sorting by urgency |
| Ordering.Insert | App.tsx:242-249 | inserting keeps a rank-sorted list sorted and adds exactly the element |
| Ordering.SortTasks | App.tsx:242-249 | same tasks, same length; no pair out of comparator order; every pinned task before every unpinned one |
| Ordering.SortPermutes | App.tsx:242 | the display order is a permutation of the tasks |
| Ordering.OfRankSnoc | App.tsx:242 | appending a task adds it to the end of its own rank's group only |
| Ordering.OfRankInsert | App.tsx:242-249 | inserting a task into a sorted list puts it after every task of its own rank |
| Ordering.SortIsStable | App.tsx:242-249 | tasks the comparator ties keep their original relative order (`Array.prototype.sort` is stable) |
| Format.NatToStringRoundTrip | constants.ts:10 | the decimal digits of `String(n)` read back as n |
| Format.Pad | constants.ts:10 | "0" and the digit for 0..9, the plain decimal for larger numbers, a sign and no padding for negatives; two characters for 0..99 |
| Format.PadRoundTrip | constants.ts:10 | a padded non-negative number reads back as itself |
| Format.FullFields | constants.ts:5-9 | minutes and seconds below 60, and h·3600 + m·60 + s equals the clamped whole seconds |
| Format.FormatFull | constants.ts:4-12 | eight characters whenever the hours are below 100 |
| Format.FormatFullClamps | constants.ts:5 | any duration ≤ 0 shows "00:00:00" |
| Format.FormatFullBySecond | constants.ts:5 | durations in the same whole second show the same text |
| Format.FullRoundTrip | constants.ts:4-12 | parsing the output gives back the clamped whole seconds |
| Format.JsRem | constants.ts:17 | JavaScript's `%`: the sign of the dividend, and it completes the truncated quotient |
| Format.HHMMDecomposes | constants.ts:15-17 | for ms ≥ 0: minutes below 60, and h·60 + m equals the whole minutes |
| Format.FormatHHMM | constants.ts:14-20 | five characters for ms ≥ 0 with hours below 100 |
| Format.HHMMRoundTrip | constants.ts:14-20 | parsing the output gives back the whole minutes |
| Format.HHMMNegative | constants.ts:15-19 | negative input is not clamped: one minute below zero shows "-1:-1" |
| Analytics.WindowTotal | components/Analytics.tsx:30-35 | never negative when every counted log ends after it starts |
| Analytics.WindowAppend | components/Analytics.tsx:31-34 | a log adds its full, unclipped duration to a window exactly when it is closed and starts at or after the window start; otherwise it adds nothing |
| Analytics.StartLogInvisible | components/Analytics.tsx:31 | starting a timer changes no window total |
| Analytics.WindowMono | components/Analytics.tsx:32-34 | a later window start never counts more |
| Analytics.Stats | components/Analytics.tsx:19-35 | the week starts 7 days before today and the month on or before today, so 0 ≤ today ≤ week and today ≤ month |
| Analytics.NinetyMinutesToday | components/Analytics.tsx:29-35 | a closed 90-minute log from today counts 90 minutes in every window and shows "01:30" |
| Analytics.Overlap | components/Analytics.tsx:45-50 | a log's share of a day is between 0 and both the log's duration and the day's length; a log inside the day counts in full |
| Analytics.OverlapSplit | components/Analytics.tsx:47-49 | clipping to two abutting intervals sums to clipping to their union |
| Analytics.OverlapDisjoint | components/Analytics.tsx:47-49 | shares of two disjoint intervals sum to at most the log's duration |
| Analytics.MidnightLosesOneMs | components/Analytics.tsx:44 | with the day ending at 23:59:59.999, a 23:30–00:30 log is credited one millisecond short of its length |
| Analytics.AdjacentDaysExact | components/Analytics.tsx:43-49 | with half-open days, a log within two adjacent days is credited its full length |
| Analytics.MidnightSplitsEvenly | components/Analytics.tsx:43-49 | with half-open days, the 23:30–00:30 log gives 30 minutes to each day |
| Analytics.DayTotal | components/Analytics.tsx:45-50 | a day's clipped total is never negative |
| Analytics.TrendAdjacentDays | components/Analytics.tsx:40-53 | two adjacent trend days together equal the two-day total: nothing is lost at midnight |
| Analytics.DayTotalOfContainedLogs | components/Analytics.tsx:30-50 | when every closed log lies within the day, the trend's day total equals the window total from that day's start |
| Analytics.Trend | components/Analytics.tsx:40-53 | one non-negative total per requested day, in order, clipped at the source's `T23:59:59.999`. Each entry is the half-open day's total less one millisecond per counted log that runs on past midnight |
| Analytics.TrendDay | components/Analytics.tsx:43-50 | one day clipped at `T23:59:59.999` is never negative and equals the half-open day's total less one millisecond per counted log running past midnight |
| Analytics.DayTotalLastMs | components/Analytics.tsx:44-49 | ending every clip one millisecond early loses exactly one millisecond per counted log that runs through it |
| Analytics.OverlapLastMs | components/Analytics.tsx:47-49 | a log loses that millisecond exactly when it starts before the end and ends at or after it |
| Analytics.TrendCorrected | components/Analytics.tsx:40-53 | the trend on half-open days: each entry is the as-written entry plus the milliseconds lost at midnight |
| Analytics.TrendCorrectedAdjacent | components/Analytics.tsx:40-53 | on half-open days, two consecutive trend entries together equal the two-day total |
| Analytics.ActualMs | components/Analytics.tsx:60-64 | a task's share of the day is between 0 and the day's total |
| Analytics.ProjectDoneMs | components/Analytics.tsx:70 | a task's closed-log total is never negative when logs end after they start |
| Analytics.ActualWithinProject | components/Analytics.tsx:60-70 | the day's share of a task never exceeds the task's total |
| Analytics.SumActualAppend | components/Analytics.tsx:60 | a new log raises the task rows' sum by its clipped share exactly when its task is listed |
| Analytics.BreakdownPartitionsDay | components/Analytics.tsx:59-64 | the task rows plus the time of logs with no listed task equal the day's total, so orphaned logs appear in no row |
| Analytics.RemainingMs | components/Analytics.tsx:71 | never negative and zero exactly when the goal is met; a positive value completes the goal; at most the goal |
| Analytics.NeededToday | components/Analytics.tsx:68-72 | with days left, the pace times the days is the remainder; with none, the whole remainder if a date is set, else 0; always between 0 and the remainder |
| Analytics.PacingExample | components/Analytics.tsx:68-72 | a 10 h goal with 2 h logged and 4 days left needs 2 h today |
| Analytics.StatusAndCheckAgree | components/Analytics.tsx:80 | the status (daily goal first) and the table's check (needed pace first) differ exactly when both are set and the day's time lies between them |
| Analytics.StatusCheckDiverge | components/Analytics.tsx:141-142 | daily goal 1 h, pace 2 h, 1.5 h logged: 'On Track' yet no check mark |
| Analytics.DiffDays | components/Analytics.tsx:66-68 | with no goal date, the day count is 0 |
| Analytics.BreakdownRow | components/Analytics.tsx:59-82 | keeps the task's id, name and daily goal; the actual time is within the day's total clipped at `T23:59:59.999`; the needed pace is within [0, goal]; the status is `OnTrack` |
| Analytics.Breakdown | components/Analytics.tsx:55-83 | one row per task, in task order, each the task's `BreakdownRow` for the selected day |
| TaskCard.ToggleSubtaskActivity | components/TaskCard.tsx:54 | after a subtask toggle the card is highlighted exactly when the task's own flag is set |
| TaskCard.ToggleTaskActivity | components/TaskCard.tsx:54 | pausing a task removes the highlight; starting it sets the highlight |
| TaskCard.ActiveIffOpenLog | components/TaskCard.tsx:54 | in a consistent state a card is highlighted exactly when one of its keys has an open log |
| TaskCard.SubRequestFor | components/TaskCard.tsx:44-48 | any request has a name and a positive goal. A preset m is requested iff m > 0, as "<m>m Focus" with m minutes. Otherwise the typed name and parsed hours are requested iff the name is non-empty and the hours positive. The card as written has no hours input, so that branch is never taken (see Findings) |
| TaskCard.HandleAddSub | components/TaskCard.tsx:44-52 | without a request nothing changes. With one, the task gains exactly one stopped subtask with time left, the logs are untouched, and both fields are cleared |
| TaskCard.PresetTwentyFive | components/TaskCard.tsx:138-141 | the 25 button adds a stopped "25m Focus" subtask with 1,500,000 ms and clears the form |
| TaskCard.CustomAddNeedsNameAndHours | components/TaskCard.tsx:47 | an empty name, or hours that parse to NaN, add nothing and keep the form |
| TaskCard.CardCustomAddInert | components/TaskCard.tsx:41-51 | as written, the custom add never changes anything: the form's hours stay empty, parse to NaN, and fail the guard |
| TaskCard.CustomAddWithHours | components/TaskCard.tsx:44-51 | with an hours field bound to the form, a named custom add with a positive goal appends that stopped, full subtask and clears the form |

## Left out

- Rendering, React hooks, `setInterval` and `setTimeout`. Each handler is one sequential transition over (tasks, logs). The `stopLog` calls made inside state updaters, and strict-mode double invocation, are not modelled.
- Persistence, import and export (`localStorage`, JSON, Blob and FileReader). These are I/O with no custom format.
- The Gemini advice client in services/geminiService.ts. It is a network call.
- `crypto.randomUUID` and `Date.now()`. Fresh ids and `now` are parameters. Consistency is proved only for actions whose new task and subtask ids are unused.
- Calendar and time-zone arithmetic (`getLast7Days`, local midnights, the start of the month, `Math.ceil` of the days to a goal date). Day starts, window starts and a `daysUntil` function are parameters. Every day is taken to be 24 hours long, so daylight-saving days are not modelled.
- Analytics.OnTrack: compares exact milliseconds. The source compares `msToHours` values rounded with `toFixed(2)`, which can differ within 18 seconds of the threshold. Floating point is not modelled.
- Analytics.NeededToday: exact `real` division. The source's float division and rounding to hours are not modelled.
- TaskCard.SubRequestFor: hour fields are already parsed to whole milliseconds, `None` standing for NaN. `parseFloat` and fractional milliseconds are not modelled.
- Engine.AddTask: likewise takes the parsed goal in whole milliseconds.
- `updateTask` (pin toggle, notes) and the progress percentage in the card. These are a plain field merge and rendering.
- Engine.ToggleTask, Engine.ToggleSubtask, Engine.AddSubtask, Engine.RestartTask, Engine.DeleteSubtask: act on the first task with the id. The source maps over every task with the id. The two agree whenever task ids are unique, which the consistency invariant requires.
- Engine.ToggleSubtask: likewise flips only the first subtask with the id. The source flips all of them, which again agrees under unique ids.
- Ordering.SortTasks: is an insertion sort proved to produce the comparator's stable order. The engine's own sorting algorithm is not modelled. `Array.prototype.sort` is stable, so any correct sort gives this same order.
- Analytics.BreakdownRow: clips at the source's `T23:59:59.999` day end, as the code does. No corrected breakdown is defined. `Analytics.ActualMs` and `Analytics.BreakdownPartitionsDay` hold for any day bounds, the half-open day included.
- Analytics.Stats: takes the week start as exactly seven 24-hour days before today's start.

## Findings

| source | as written | input that shows it | evidently intended | confidence | as-written member | corrected member |
|---|---|---|---|---|---|---|
| components/Analytics.tsx:44,57 | each day ends at `T23:59:59.999`, and the clip subtracts `end − start` over that end. The millisecond before midnight belongs to no day | a closed log from 23:30 to 00:30 is credited 1,799,999 ms to the first day and 1,800,000 ms to the second: 3,599,999 ms for a 3,600,000 ms log | a day is [midnight, next midnight), so adjacent days share a log's time exactly (30 minutes each here) | medium (not executed) | Analytics.MidnightLosesOneMs and Analytics.TrendDay (on Analytics.DayEndAsWritten, which Trend and BreakdownRow use) | Analytics.TrendCorrected with Analytics.TrendCorrectedAdjacent, Analytics.AdjacentDaysExact and Analytics.TrendAdjacentDays (on Analytics.DayEnd) |
| components/TaskCard.tsx:41,45,150-164 | the subtask form binds only the name input. `subHours` starts as `''` and is only ever set to `''`, so `parseFloat(subHours)` is NaN and the custom "+" add never passes `h > 0` | any typed name, for example "Draft", with the "+" button: nothing is added | the form has an hours input bound to `subHours`, so a named custom add with positive hours adds that subtask | medium (not executed) | TaskCard.CardCustomAddInert (on TaskCard.CardDraft) | TaskCard.CustomAddWithHours (on TaskCard.HandleAddSub with a parsed hours value) |
