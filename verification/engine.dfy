/** The countdown engine's user actions (App.tsx 87-214): each one is a
    transition over (tasks, logs) taking the current instant `now` and, where
    the source draws a fresh UUID, the fresh id as a parameter. A handler acts
    on the first task carrying the given id; a missing id changes nothing. */
module Engine {
  import opened Types
  import opened Ledger

  const DefaultTaskName: string := "New Objective"

  function FindTask(tasks: seq<Task>, taskId: Id): Option<nat> {
    IndexOf(TaskIds(tasks), taskId)
  }

  /** No log disappears, every closed log stays exactly as it was, and an
      open log can only receive an end instant; logs may be appended. */
  predicate Extends(a: seq<TimeLog>, b: seq<TimeLog>) {
    && |a| <= |b|
    && forall j :: 0 <= j < |a| ==>
         b[j] == a[j] || (a[j].IsOpen() && b[j] == a[j].(endTs := b[j].endTs))
  }

  /** Two tasks that differ only in countdowns: same id, name, goals and
      subtasks up to their countdowns. */
  predicate SameButClocks(t: Task, u: Task) {
    && u.(clock := t.clock, subtasks := t.subtasks) == t
    && |u.subtasks| == |t.subtasks|
    && forall k :: 0 <= k < |t.subtasks| ==> u.subtasks[k].(clock := t.subtasks[k].clock) == t.subtasks[k]
  }

  function StopClock(c: Countdown, now: int): Countdown { c.(running := false, lastUpdated := now) }
  function StartClock(c: Countdown, now: int): Countdown { c.(running := true, lastUpdated := now) }

  // ----- addTask (App.tsx 87-110) -----

  /** The creation form after parsing: `goalMs` and `dailyMs` are the parsed
      hour fields in milliseconds, `None` where `parseFloat` yields NaN. */
  datatype TaskDraft = TaskDraft(name: string, goalMs: Option<int>, dailyMs: Option<int>, targetDate: string, urgency: Urgency)

  predicate PositiveGoal(g: Option<int>) { g.Some? && g.value > 0 }

  /** `addTask`: nothing happens unless the parsed goal is positive; then one
      stopped task with a full countdown is put first and the text fields of
      the form are cleared (the urgency choice is kept). */
  function AddTask(s: State, d: TaskDraft, id: Id, now: int): (r: (State, TaskDraft))
    ensures !PositiveGoal(d.goalMs) ==> r == (s, d)
    ensures PositiveGoal(d.goalMs) ==>
      && |r.0.tasks| == |s.tasks| + 1 && r.0.tasks[1..] == s.tasks && r.0.logs == s.logs
      && r.1 == TaskDraft("", None, None, "", d.urgency)
      && var t := r.0.tasks[0];
         && t.id == id && t.goalMs == d.goalMs.value
         && t.clock == Countdown(false, d.goalMs.value, now)
         && t.subtasks == [] && !t.pinned && t.notes == "" && t.urgency == d.urgency
         && t.name == (if d.name == "" then DefaultTaskName else d.name)
         && t.dailyGoalMs == (if d.dailyMs.Some? then d.dailyMs.value else 0)
         && t.goalDate == (if d.targetDate == "" then None else Some(d.targetDate))
  {
    if PositiveGoal(d.goalMs) then
      var g := d.goalMs.value;
      var t := Task(id, if d.name == "" then DefaultTaskName else d.name, g,
                    match d.dailyMs case Some(v) => v case None => 0,
                    if d.targetDate == "" then None else Some(d.targetDate),
                    d.urgency, Countdown(false, g, now), [], false, "");
      (State([t] + s.tasks, s.logs), TaskDraft("", None, None, "", d.urgency))
    else (s, d)
  }

  // ----- toggleTask (App.tsx 124-137) -----

  /** Log keys of the running subtasks, in order. */
  function RunningSubKeys(taskId: Id, subs: seq<Subtask>): (r: seq<LogKey>)
    ensures |r| == RunningCount(subs)
    ensures forall key :: key in r <==>
      exists k :: 0 <= k < |subs| && subs[k].clock.running && key == SubKey(taskId, subs[k].id)
  {
    if |subs| == 0 then []
    else
      var rest := RunningSubKeys(taskId, subs[1..]);
      assert forall k :: 1 <= k < |subs| ==> subs[k] == subs[1..][k - 1];
      (if subs[0].clock.running then [SubKey(taskId, subs[0].id)] else []) + rest
  }

  function StopAllSubs(subs: seq<Subtask>, now: int): (r: seq<Subtask>)
    ensures |r| == |subs| && !AnyRunning(r)
    ensures forall k :: 0 <= k < |subs| ==>
      r[k].(clock := subs[k].clock) == subs[k] && r[k].clock.remainingMs == subs[k].clock.remainingMs
  {
    seq(|subs|, k requires 0 <= k < |subs| => subs[k].(clock := StopClock(subs[k].clock, now)))
  }

  /** `toggleTask`: pauses a running task together with all its subtasks,
      closing the task's log and one log per running subtask, or starts a
      stopped task and opens one task-level log. Remaining time is kept. */
  function ToggleTask(s: State, taskId: Id, logId: Id, now: int): (r: State)
    ensures |r.tasks| == |s.tasks| && Extends(s.logs, r.logs)
    ensures FindTask(s.tasks, taskId).None? ==> r == s
    ensures FindTask(s.tasks, taskId).Some? ==>
      var i := FindTask(s.tasks, taskId).value;
      var t, t' := s.tasks[i], r.tasks[i];
      && (forall j :: 0 <= j < |s.tasks| && j != i ==> r.tasks[j] == s.tasks[j])
      && SameButClocks(t, t')
      && t'.clock.remainingMs == t.clock.remainingMs
      && (forall k :: 0 <= k < |t.subtasks| ==> t'.subtasks[k].clock.remainingMs == t.subtasks[k].clock.remainingMs)
      && (t.clock.running ==>
            && !t'.clock.running && !AnyRunning(t'.subtasks)
            && r.logs == StopEach(StopLog(s.logs, TaskKey(taskId), now), RunningSubKeys(taskId, t.subtasks), now))
      && (!t.clock.running ==>
            && t'.clock.running && t'.subtasks == t.subtasks
            && r.logs == StartLog(s.logs, logId, TaskKey(taskId), now))
  {
    match FindTask(s.tasks, taskId)
    case None => s
    case Some(i) =>
      var t := s.tasks[i];
      if t.clock.running then
        var logs := StopEach(StopLog(s.logs, TaskKey(taskId), now), RunningSubKeys(taskId, t.subtasks), now);
        State(s.tasks[i := t.(clock := StopClock(t.clock, now), subtasks := StopAllSubs(t.subtasks, now))], logs)
      else
        State(s.tasks[i := t.(clock := StartClock(t.clock, now))], StartLog(s.logs, logId, TaskKey(taskId), now))
  }

  // ----- toggleSubtask (App.tsx 139-164) -----

  /** Extending is transitive: closing open logs and appending new ones, twice over, is again that. */
  lemma ExtendsTrans(a: seq<TimeLog>, b: seq<TimeLog>, c: seq<TimeLog>)
    requires Extends(a, b) && Extends(b, c)
    ensures Extends(a, c)
  {
    forall j | 0 <= j < |a|
      ensures c[j] == a[j] || (a[j].IsOpen() && c[j] == a[j].(endTs := c[j].endTs))
    {
      assert b[j] == a[j] || (a[j].IsOpen() && b[j] == a[j].(endTs := b[j].endTs));
      assert c[j] == b[j] || (b[j].IsOpen() && c[j] == b[j].(endTs := c[j].endTs));
    }
  }

  /** The subtask half of `toggleSubtask`: flips the first subtask with
      `subId`, closing its open log when it ran and opening one under
      `subLogId` when it did not. Every other subtask is left alone. */
  function FlipSub(subs: seq<Subtask>, taskId: Id, subId: Id, subLogId: Id, logs: seq<TimeLog>, now: int): (r: (seq<Subtask>, seq<TimeLog>))
    ensures |r.0| == |subs| && Extends(logs, r.1)
    ensures forall k :: 0 <= k < |subs| ==>
      && r.0[k].(clock := subs[k].clock) == subs[k]
      && r.0[k].clock.remainingMs == subs[k].clock.remainingMs
      && (r.0[k].clock.running != subs[k].clock.running <==> IndexOf(SubIds(subs), subId) == Some(k))
    ensures forall key :: key != SubKey(taskId, subId) ==> OpenCount(r.1, key) == OpenCount(logs, key)
    ensures IndexOf(SubIds(subs), subId).None? ==> r.1 == logs
    ensures IndexOf(SubIds(subs), subId).Some? ==>
      var k := IndexOf(SubIds(subs), subId).value;
      OpenCount(r.1, SubKey(taskId, subId)) ==
        if subs[k].clock.running then 0 else OpenCount(logs, SubKey(taskId, subId)) + 1
  {
    match IndexOf(SubIds(subs), subId)
    case None => (subs, logs)
    case Some(k) =>
      if subs[k].clock.running then
        StopLogCounts(logs, SubKey(taskId, subId), now);
        (subs[k := subs[k].(clock := StopClock(subs[k].clock, now))], StopLog(logs, SubKey(taskId, subId), now))
      else
        StartLogCounts(logs, subLogId, SubKey(taskId, subId), now);
        (subs[k := subs[k].(clock := StartClock(subs[k].clock, now))], StartLog(logs, subLogId, SubKey(taskId, subId), now))
  }

  /** The task half of `toggleSubtask`: the task's flag becomes "some
      subtask runs"; a task-level log under `taskLogId` is opened when the
      flag turns on, and the open one closed when it turns off. */
  function Resync(t: Task, logs: seq<TimeLog>, taskLogId: Id, now: int): (r: (Task, seq<TimeLog>))
    ensures r.0 == t.(clock := r.0.clock) && Extends(logs, r.1)
    ensures r.0.clock.running == AnyRunning(t.subtasks) && r.0.clock.remainingMs == t.clock.remainingMs
    ensures r.0.clock.running == t.clock.running ==> r.1 == logs
    ensures forall key :: key != TaskKey(t.id) ==> OpenCount(r.1, key) == OpenCount(logs, key)
    ensures r.0.clock.running && !t.clock.running ==> OpenCount(r.1, TaskKey(t.id)) == OpenCount(logs, TaskKey(t.id)) + 1
    ensures !r.0.clock.running && t.clock.running ==> OpenCount(r.1, TaskKey(t.id)) == 0
  {
    var some := AnyRunning(t.subtasks);
    var (running', logs') :=
      if some && !t.clock.running then
        StartLogCounts(logs, taskLogId, TaskKey(t.id), now);
        (true, StartLog(logs, taskLogId, TaskKey(t.id), now))
      else if !some && t.clock.running then
        StopLogCounts(logs, TaskKey(t.id), now);
        (false, StopLog(logs, TaskKey(t.id), now))
      else (t.clock.running, logs);
    (t.(clock := t.clock.(running := running', lastUpdated := now)), logs')
  }

  /** `toggleSubtask`: flips the run state of the first subtask with `subId`
      (opening or closing its log), then resynchronises the task's own flag
      to "some subtask is running", opening or closing the task-level log
      exactly when that flag changes. `subLogId` and `taskLogId` are the fresh
      ids for the at most two logs it opens. */
  function ToggleSubtask(s: State, taskId: Id, subId: Id, subLogId: Id, taskLogId: Id, now: int): (r: State)
    ensures |r.tasks| == |s.tasks| && Extends(s.logs, r.logs)
    ensures FindTask(s.tasks, taskId).None? ==> r == s
    ensures FindTask(s.tasks, taskId).Some? ==>
      var i := FindTask(s.tasks, taskId).value;
      var t, t' := s.tasks[i], r.tasks[i];
      && (forall j :: 0 <= j < |s.tasks| && j != i ==> r.tasks[j] == s.tasks[j])
      && SameButClocks(t, t')
      && t'.clock.running == AnyRunning(t'.subtasks)
      && t'.clock.remainingMs == t.clock.remainingMs
      && (forall k :: 0 <= k < |t.subtasks| ==>
            && t'.subtasks[k].clock.remainingMs == t.subtasks[k].clock.remainingMs
            && (t'.subtasks[k].clock.running != t.subtasks[k].clock.running <==>
                  IndexOf(SubIds(t.subtasks), subId) == Some(k)))
      && (forall key :: key != TaskKey(taskId) && key != SubKey(taskId, subId) ==>
            OpenCount(r.logs, key) == OpenCount(s.logs, key))
      && OpenCount(r.logs, SubKey(taskId, subId)) ==
           (match IndexOf(SubIds(t.subtasks), subId)
            case None => OpenCount(s.logs, SubKey(taskId, subId))
            case Some(k) => if t.subtasks[k].clock.running then 0 else OpenCount(s.logs, SubKey(taskId, subId)) + 1)
      && OpenCount(r.logs, TaskKey(taskId)) ==
           (if t'.clock.running == t.clock.running then OpenCount(s.logs, TaskKey(taskId))
            else if t'.clock.running then OpenCount(s.logs, TaskKey(taskId)) + 1
            else 0)
  {
    match FindTask(s.tasks, taskId)
    case None => s
    case Some(i) =>
      var t := s.tasks[i];
      var flipped := FlipSub(t.subtasks, taskId, subId, subLogId, s.logs, now);
      var synced := Resync(t.(subtasks := flipped.0), flipped.1, taskLogId, now);
      ExtendsTrans(s.logs, flipped.1, synced.1);
      State(s.tasks[i := synced.0], synced.1)
  }

  // ----- addSubtask (App.tsx 167-180) -----

  /** `addSubtask`: appends one stopped subtask with a full countdown to the
      task; logs are untouched and a missing task changes nothing. */
  function AddSubtask(s: State, taskId: Id, name: string, goalMs: int, subId: Id, now: int): (r: State)
    ensures |r.tasks| == |s.tasks| && r.logs == s.logs
    ensures FindTask(s.tasks, taskId).None? ==> r == s
    ensures FindTask(s.tasks, taskId).Some? ==>
      var i := FindTask(s.tasks, taskId).value;
      && (forall j :: 0 <= j < |s.tasks| && j != i ==> r.tasks[j] == s.tasks[j])
      && r.tasks[i] == s.tasks[i].(subtasks := s.tasks[i].subtasks + [Subtask(subId, name, goalMs, Countdown(false, goalMs, now))])
  {
    match FindTask(s.tasks, taskId)
    case None => s
    case Some(i) =>
      var sub := Subtask(subId, name, goalMs, Countdown(false, goalMs, now));
      State(s.tasks[i := s.tasks[i].(subtasks := s.tasks[i].subtasks + [sub])], s.logs)
  }

  // ----- restartTask (App.tsx 183-199) -----

  function ResetSubs(subs: seq<Subtask>, now: int): (r: seq<Subtask>)
    ensures |r| == |subs| && !AnyRunning(r)
    ensures forall k :: 0 <= k < |subs| ==>
      r[k].(clock := subs[k].clock) == subs[k] && r[k].clock.remainingMs == subs[k].goalMs
  {
    seq(|subs|, k requires 0 <= k < |subs| =>
      subs[k].(clock := Countdown(false, subs[k].goalMs, now)))
  }

  /** `restartTask`: stops the task and every subtask, closing only the logs
      of those that were running, and refills every countdown from its goal.
      No log is removed. */
  function RestartTask(s: State, taskId: Id, now: int): (r: State)
    ensures |r.tasks| == |s.tasks| && |r.logs| == |s.logs| && Extends(s.logs, r.logs)
    ensures FindTask(s.tasks, taskId).None? ==> r == s
    ensures FindTask(s.tasks, taskId).Some? ==>
      var i := FindTask(s.tasks, taskId).value;
      var t, t' := s.tasks[i], r.tasks[i];
      && (forall j :: 0 <= j < |s.tasks| && j != i ==> r.tasks[j] == s.tasks[j])
      && SameButClocks(t, t')
      && !t'.clock.running && !AnyRunning(t'.subtasks)
      && t'.clock.remainingMs == t.goalMs
      && (forall k :: 0 <= k < |t.subtasks| ==> t'.subtasks[k].clock.remainingMs == t.subtasks[k].goalMs)
      && r.logs == StopEach(if t.clock.running then StopLog(s.logs, TaskKey(taskId), now) else s.logs,
                            RunningSubKeys(taskId, t.subtasks), now)
  {
    match FindTask(s.tasks, taskId)
    case None => s
    case Some(i) =>
      var t := s.tasks[i];
      var logs := if t.clock.running then StopLog(s.logs, TaskKey(taskId), now) else s.logs;
      var logs' := StopEach(logs, RunningSubKeys(taskId, t.subtasks), now);
      State(s.tasks[i := t.(clock := Countdown(false, t.goalMs, now), subtasks := ResetSubs(t.subtasks, now))], logs')
  }

  // ----- deleteTask / deleteSubtask (App.tsx 202-214) -----

  /** The tasks whose id differs, in order (`filter`). */
  function RemoveTasks(tasks: seq<Task>, taskId: Id): (r: seq<Task>)
    ensures forall j :: 0 <= j < |r| ==> r[j].id != taskId
    ensures |r| <= |tasks|
  {
    if |tasks| == 0 then []
    else (if tasks[0].id == taskId then [] else [tasks[0]]) + RemoveTasks(tasks[1..], taskId)
  }

  /** Exactly the tasks with another id survive the filter. */
  lemma {:induction false} RemoveTasksKeeps(tasks: seq<Task>, taskId: Id)
    ensures forall t :: t in RemoveTasks(tasks, taskId) <==> t in tasks && t.id != taskId
  {
    if |tasks| > 0 {
      RemoveTasksKeeps(tasks[1..], taskId);
      assert tasks == [tasks[0]] + tasks[1..];
    }
  }

  /** With no task carrying the id, the filter keeps the list as it is. */
  lemma {:induction false} RemoveTasksNone(tasks: seq<Task>, taskId: Id)
    requires forall j :: 0 <= j < |tasks| ==> tasks[j].id != taskId
    ensures RemoveTasks(tasks, taskId) == tasks
  {
    if |tasks| > 0 {
      RemoveTasksNone(tasks[1..], taskId);
      assert tasks == [tasks[0]] + tasks[1..];
    }
  }

  /** With exactly one task carrying the id, the filter cuts out that one
      task and keeps the others in order. */
  lemma {:induction false} RemoveTasksOne(tasks: seq<Task>, taskId: Id, i: nat)
    requires i < |tasks| && tasks[i].id == taskId
    requires forall j :: 0 <= j < |tasks| && j != i ==> tasks[j].id != taskId
    ensures RemoveTasks(tasks, taskId) == tasks[..i] + tasks[i + 1..]
  {
    if i == 0 {
      RemoveTasksNone(tasks[1..], taskId);
    } else {
      var tail := tasks[1..];
      RemoveTasksOne(tail, taskId, i - 1);
      assert tail[..i - 1] + tail[i..] == tasks[1..i] + tasks[i + 1..];
      assert tasks[..i] == [tasks[0]] + tasks[1..i];
    }
  }

  /** The filter by the position of the first task with the id: nothing
      goes when there is none, and under unique ids just that task goes. */
  lemma RemoveTasksAt(tasks: seq<Task>, taskId: Id)
    ensures FindTask(tasks, taskId).None? ==> RemoveTasks(tasks, taskId) == tasks
    ensures FindTask(tasks, taskId).Some? && UniqueIds(TaskIds(tasks)) ==>
      var i := FindTask(tasks, taskId).value;
      RemoveTasks(tasks, taskId) == tasks[..i] + tasks[i + 1..]
  {
    match FindTask(tasks, taskId) {
      case None => RemoveTasksNone(tasks, taskId);
      case Some(i) =>
        if UniqueIds(TaskIds(tasks)) {
          assert forall j :: 0 <= j < |tasks| && j != i ==> TaskIds(tasks)[j] != TaskIds(tasks)[i];
          RemoveTasksOne(tasks, taskId, i);
        }
    }
  }

  /** `deleteTask`: removes every task with the id and leaves the ledger as
      it is, open logs of the removed task included. */
  function DeleteTask(s: State, taskId: Id): (r: State)
    ensures r.logs == s.logs
    ensures forall j :: 0 <= j < |r.tasks| ==> r.tasks[j].id != taskId
    ensures forall t :: t in s.tasks && t.id != taskId <==> t in r.tasks
    ensures FindTask(s.tasks, taskId).None? ==> r == s
    ensures FindTask(s.tasks, taskId).Some? && UniqueIds(TaskIds(s.tasks)) ==>
      var i := FindTask(s.tasks, taskId).value;
      r.tasks == s.tasks[..i] + s.tasks[i + 1..]
  {
    RemoveTasksKeeps(s.tasks, taskId);
    RemoveTasksAt(s.tasks, taskId);
    State(RemoveTasks(s.tasks, taskId), s.logs)
  }

  /** The subtasks whose id differs, in order (`filter`). */
  function RemoveSubs(subs: seq<Subtask>, subId: Id): (r: seq<Subtask>)
    ensures forall k :: 0 <= k < |r| ==> r[k].id != subId
    ensures |r| <= |subs|
  {
    if |subs| == 0 then []
    else (if subs[0].id == subId then [] else [subs[0]]) + RemoveSubs(subs[1..], subId)
  }

  /** Exactly the subtasks with another id survive the filter. */
  lemma {:induction false} RemoveSubsKeeps(subs: seq<Subtask>, subId: Id)
    ensures forall u :: u in RemoveSubs(subs, subId) <==> u in subs && u.id != subId
  {
    if |subs| > 0 {
      RemoveSubsKeeps(subs[1..], subId);
      assert subs == [subs[0]] + subs[1..];
    }
  }

  /** With no subtask carrying the id, the filter keeps the list as it is. */
  lemma {:induction false} RemoveSubsNone(subs: seq<Subtask>, subId: Id)
    requires forall k :: 0 <= k < |subs| ==> subs[k].id != subId
    ensures RemoveSubs(subs, subId) == subs
  {
    if |subs| > 0 {
      RemoveSubsNone(subs[1..], subId);
      assert subs == [subs[0]] + subs[1..];
    }
  }

  /** With exactly one subtask carrying the id, the filter cuts out that
      one and keeps the others in order. */
  lemma {:induction false} RemoveSubsOne(subs: seq<Subtask>, subId: Id, i: nat)
    requires i < |subs| && subs[i].id == subId
    requires forall k :: 0 <= k < |subs| && k != i ==> subs[k].id != subId
    ensures RemoveSubs(subs, subId) == subs[..i] + subs[i + 1..]
  {
    if i == 0 {
      RemoveSubsNone(subs[1..], subId);
    } else {
      var tail := subs[1..];
      RemoveSubsOne(tail, subId, i - 1);
      assert tail[..i - 1] + tail[i..] == subs[1..i] + subs[i + 1..];
      assert subs[..i] == [subs[0]] + subs[1..i];
    }
  }

  /** The filter by the position of the first subtask with the id: nothing
      goes when there is none, and under unique ids just that subtask goes. */
  lemma RemoveSubsAt(subs: seq<Subtask>, subId: Id)
    ensures IndexOf(SubIds(subs), subId).None? ==> RemoveSubs(subs, subId) == subs
    ensures IndexOf(SubIds(subs), subId).Some? && UniqueIds(SubIds(subs)) ==>
      var k := IndexOf(SubIds(subs), subId).value;
      RemoveSubs(subs, subId) == subs[..k] + subs[k + 1..]
  {
    match IndexOf(SubIds(subs), subId) {
      case None => RemoveSubsNone(subs, subId);
      case Some(k) =>
        if UniqueIds(SubIds(subs)) {
          assert forall j :: 0 <= j < |subs| && j != k ==> SubIds(subs)[j] != SubIds(subs)[k];
          RemoveSubsOne(subs, subId, k);
        }
    }
  }

  /** `deleteSubtask`: removes the task's subtasks with the id and closes the
      subtask's open log only if the first of them was running. The task's own
      run flag is not resynchronised. */
  function DeleteSubtask(s: State, taskId: Id, subId: Id, now: int): (r: State)
    ensures |r.tasks| == |s.tasks| && |r.logs| == |s.logs| && Extends(s.logs, r.logs)
    ensures FindTask(s.tasks, taskId).None? ==> r == s
    ensures FindTask(s.tasks, taskId).Some? ==>
      var i := FindTask(s.tasks, taskId).value;
      var t := s.tasks[i];
      var wasRunning := match IndexOf(SubIds(t.subtasks), subId)
                        case Some(k) => t.subtasks[k].clock.running
                        case None => false;
      && (forall j :: 0 <= j < |s.tasks| && j != i ==> r.tasks[j] == s.tasks[j])
      && r.tasks[i] == t.(subtasks := RemoveSubs(t.subtasks, subId))
      && (forall u :: u in r.tasks[i].subtasks <==> u in t.subtasks && u.id != subId)
      && (IndexOf(SubIds(t.subtasks), subId).None? ==> r == s)
      && (IndexOf(SubIds(t.subtasks), subId).Some? && UniqueIds(SubIds(t.subtasks)) ==>
            var k := IndexOf(SubIds(t.subtasks), subId).value;
            r.tasks[i].subtasks == t.subtasks[..k] + t.subtasks[k + 1..])
      && r.logs == (if wasRunning then StopLog(s.logs, SubKey(taskId, subId), now) else s.logs)
  {
    match FindTask(s.tasks, taskId)
    case None => s
    case Some(i) =>
      var t := s.tasks[i];
      RemoveSubsKeeps(t.subtasks, subId);
      RemoveSubsAt(t.subtasks, subId);
      var logs := match IndexOf(SubIds(t.subtasks), subId)
                  case Some(k) => if t.subtasks[k].clock.running then StopLog(s.logs, SubKey(taskId, subId), now) else s.logs
                  case None => s.logs;
      assert IndexOf(SubIds(t.subtasks), subId).None? ==> s.tasks[i := t] == s.tasks;
      State(s.tasks[i := t.(subtasks := RemoveSubs(t.subtasks, subId))], logs)
  }
}
