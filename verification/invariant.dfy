/** The ledger/countdown agreement the engine relies on: every task and
    subtask has exactly one open log while it runs and none while it is
    stopped, and no key ever has two open logs. Every user action preserves
    it when handed fresh ids; countdown expiry and `deleteTask` do not. */
module Invariant {
  import opened Types
  import opened Ledger
  import opened Tick
  import opened Engine

  function Flag(b: bool): nat { if b then 1 else 0 }

  /** The open logs of `t`'s own key and of each subtask key match their run flags. */
  ghost predicate Tracks(t: Task, logs: seq<TimeLog>) {
    && OpenCount(logs, TaskKey(t.id)) == Flag(t.clock.running)
    && forall k :: 0 <= k < |t.subtasks| ==>
         OpenCount(logs, SubKey(t.id, t.subtasks[k].id)) == Flag(t.subtasks[k].clock.running)
  }

  ghost predicate Consistent(s: State) {
    && WellFormed(s.tasks)
    && AtMostOneOpen(s.logs)
    && forall i :: 0 <= i < |s.tasks| ==> Tracks(s.tasks[i], s.logs)
  }

  /** Two ledgers with the same open counts on every key of task `id`. */
  ghost predicate SameCountsFor(a: seq<TimeLog>, b: seq<TimeLog>, id: Id) {
    forall k: LogKey :: k.taskId == id ==> OpenCount(a, k) == OpenCount(b, k)
  }

  lemma TracksFrame(t: Task, a: seq<TimeLog>, b: seq<TimeLog>)
    requires Tracks(t, a) && SameCountsFor(a, b, t.id)
    ensures Tracks(t, b)
  {
    assert OpenCount(a, TaskKey(t.id)) == OpenCount(b, TaskKey(t.id));
    forall k | 0 <= k < |t.subtasks|
      ensures OpenCount(b, SubKey(t.id, t.subtasks[k].id)) == Flag(t.subtasks[k].clock.running)
    {
      assert OpenCount(a, SubKey(t.id, t.subtasks[k].id)) == OpenCount(b, SubKey(t.id, t.subtasks[k].id));
    }
  }

  /** Tasks other than the one at `i` keep tracking a ledger that only
      changed on keys of `tasks[i].id`. */
  lemma OthersTrack(s: State, i: nat, tasks': seq<Task>, logs': seq<TimeLog>)
    requires Consistent(s) && i < |s.tasks| && |tasks'| == |s.tasks|
    requires forall j :: 0 <= j < |s.tasks| && j != i ==> tasks'[j] == s.tasks[j]
    requires forall k: LogKey :: k.taskId != s.tasks[i].id ==> OpenCount(logs', k) == OpenCount(s.logs, k)
    ensures forall j :: 0 <= j < |s.tasks| && j != i ==> Tracks(tasks'[j], logs')
  {
    forall j | 0 <= j < |s.tasks| && j != i ensures Tracks(tasks'[j], logs') {
      assert TaskIds(s.tasks)[j] != TaskIds(s.tasks)[i];
      TracksFrame(s.tasks[j], s.logs, logs');
    }
  }

  /** Replacing task `i` by one with the same ids keeps the tasks well formed. */
  lemma SameIdsWellFormed(tasks: seq<Task>, i: nat, t': Task)
    requires WellFormed(tasks) && i < |tasks| && SameButClocks(tasks[i], t')
    ensures WellFormed(tasks[i := t'])
  {
    assert TaskIds(tasks[i := t']) == TaskIds(tasks);
    assert SubIds(t'.subtasks) == SubIds(tasks[i].subtasks);
  }

  lemma {:induction false} RunningSubKeysDistinct(taskId: Id, subs: seq<Subtask>)
    requires UniqueIds(SubIds(subs))
    ensures DistinctKeys(RunningSubKeys(taskId, subs))
  {
    if |subs| > 0 {
      assert SubIds(subs[1..]) == SubIds(subs)[1..];
      RunningSubKeysDistinct(taskId, subs[1..]);
      var rest := RunningSubKeys(taskId, subs[1..]);
      forall key | key in rest ensures key != SubKey(taskId, subs[0].id) {
        var k :| 0 <= k < |subs[1..]| && subs[1..][k].clock.running && key == SubKey(taskId, subs[1..][k].id);
        assert SubIds(subs)[k + 1] != SubIds(subs)[0];
      }
      var all := RunningSubKeys(taskId, subs);
      if subs[0].clock.running {
        assert all == [SubKey(taskId, subs[0].id)] + rest;
        forall i, j | 0 <= i < j < |all| ensures all[i] != all[j] {
          assert all[j] == rest[j - 1] && all[j] in rest;
          if i > 0 {
            assert all[i] == rest[i - 1];
          }
        }
      } else {
        assert all == rest;
      }
    }
  }

  lemma NotInRunningKeys(taskId: Id, subs: seq<Subtask>, k: nat)
    requires UniqueIds(SubIds(subs)) && k < |subs| && !subs[k].clock.running
    ensures SubKey(taskId, subs[k].id) !in RunningSubKeys(taskId, subs)
  {
    forall m | 0 <= m < |subs| && subs[m].clock.running ensures SubKey(taskId, subs[k].id) != SubKey(taskId, subs[m].id) {
      assert SubIds(subs)[m] != SubIds(subs)[k];
    }
  }

  // ----- toggleTask -----

  /** Pausing a running task closes exactly N + 1 logs, where N is the number
      of its running subtasks, and leaves none of them running. */
  lemma ToggleTaskCascade(s: State, taskId: Id, logId: Id, now: int)
    requires Consistent(s)
    requires FindTask(s.tasks, taskId).Some? && s.tasks[FindTask(s.tasks, taskId).value].clock.running
    ensures var t := s.tasks[FindTask(s.tasks, taskId).value];
            var r := ToggleTask(s, taskId, logId, now);
      && TotalOpen(r.logs) + RunningCount(t.subtasks) + 1 == TotalOpen(s.logs)
      && !AnyRunning(r.tasks[FindTask(s.tasks, taskId).value].subtasks)
  {
    var i := FindTask(s.tasks, taskId).value;
    var t := s.tasks[i];
    var keys := RunningSubKeys(taskId, t.subtasks);
    var logs1 := StopLog(s.logs, TaskKey(taskId), now);
    StopLogTotal(s.logs, TaskKey(taskId), now);
    RunningSubKeysDistinct(taskId, t.subtasks);
    forall j | 0 <= j < |keys| ensures OpenCount(logs1, keys[j]) == 1 {
      assert keys[j] in keys;
      var k :| 0 <= k < |t.subtasks| && t.subtasks[k].clock.running && keys[j] == SubKey(taskId, t.subtasks[k].id);
      StopLogCount(s.logs, TaskKey(taskId), now, keys[j]);
    }
    StopEachTotal(logs1, keys, now);
  }

  lemma ToggleTaskPreserves(s: State, taskId: Id, logId: Id, now: int)
    requires Consistent(s)
    ensures Consistent(ToggleTask(s, taskId, logId, now))
  {
    var r := ToggleTask(s, taskId, logId, now);
    if FindTask(s.tasks, taskId).Some? {
      var i := FindTask(s.tasks, taskId).value;
      var t, t' := s.tasks[i], r.tasks[i];
      SameIdsWellFormed(s.tasks, i, t');
      assert r.tasks == s.tasks[i := t'];
      if t.clock.running {
        var keys := RunningSubKeys(taskId, t.subtasks);
        var logs1 := StopLog(s.logs, TaskKey(taskId), now);
        StopLogKeepsAtMostOne(s.logs, TaskKey(taskId), now);
        StopEachKeepsAtMostOne(logs1, keys, now);
        forall k ensures OpenCount(r.logs, k) ==
          if k == TaskKey(taskId) || k in keys then 0 else OpenCount(s.logs, k)
        {
          StopLogCount(s.logs, TaskKey(taskId), now, k);
          StopEachCount(logs1, keys, now, k);
        }
        forall k | 0 <= k < |t'.subtasks|
          ensures OpenCount(r.logs, SubKey(t'.id, t'.subtasks[k].id)) == Flag(t'.subtasks[k].clock.running)
        {
          if !t.subtasks[k].clock.running {
            NotInRunningKeys(taskId, t.subtasks, k);
          }
        }
      } else {
        StartLogKeepsAtMostOne(s.logs, logId, TaskKey(taskId), now);
        forall k ensures OpenCount(r.logs, k) == OpenCount(s.logs, k) + (if k == TaskKey(taskId) then 1 else 0) {
          StartLogCount(s.logs, logId, TaskKey(taskId), now, k);
        }
      }
      OthersTrack(s, i, r.tasks, r.logs);
    }
  }

  // ----- toggleSubtask -----

  /** The subtask half keeps the task tracked (its own flag not yet
      resynchronised) and touches no other task's keys. */
  lemma FlipSubTracks(t: Task, subId: Id, subLogId: Id, logs: seq<TimeLog>, now: int)
    requires AtMostOneOpen(logs) && UniqueIds(SubIds(t.subtasks)) && Tracks(t, logs)
    ensures var f := FlipSub(t.subtasks, t.id, subId, subLogId, logs, now);
      && AtMostOneOpen(f.1) && Tracks(t.(subtasks := f.0), f.1)
      && forall key: LogKey :: key.taskId != t.id ==> OpenCount(f.1, key) == OpenCount(logs, key)
  {
    var subs := t.subtasks;
    var f := FlipSub(subs, t.id, subId, subLogId, logs, now);
    match IndexOf(SubIds(subs), subId) {
      case None =>
      case Some(m) =>
        var key0 := SubKey(t.id, subId);
        if subs[m].clock.running {
          StopLogKeepsAtMostOne(logs, key0, now);
          forall key ensures OpenCount(f.1, key) == if key == key0 then 0 else OpenCount(logs, key) {
            StopLogCount(logs, key0, now, key);
          }
        } else {
          assert OpenCount(logs, SubKey(t.id, subs[m].id)) == 0;
          StartLogKeepsAtMostOne(logs, subLogId, key0, now);
          forall key ensures OpenCount(f.1, key) == OpenCount(logs, key) + (if key == key0 then 1 else 0) {
            StartLogCount(logs, subLogId, key0, now, key);
          }
        }
        forall k | 0 <= k < |f.0|
          ensures OpenCount(f.1, SubKey(t.id, f.0[k].id)) == Flag(f.0[k].clock.running)
        {
          assert f.0[k].id == subs[k].id;
          if m != k {
            assert SubIds(subs)[m] != SubIds(subs)[k];
          }
        }
    }
  }

  /** The task half opens or closes the task-level log exactly when the
      task's flag changes, so the task stays tracked, and it touches no
      other task's keys. */
  lemma ResyncTracks(t: Task, logs: seq<TimeLog>, taskLogId: Id, now: int)
    requires AtMostOneOpen(logs) && Tracks(t, logs)
    ensures var r := Resync(t, logs, taskLogId, now);
      && AtMostOneOpen(r.1) && Tracks(r.0, r.1)
      && forall key: LogKey :: key.taskId != t.id ==> OpenCount(r.1, key) == OpenCount(logs, key)
  {
    var r := Resync(t, logs, taskLogId, now);
    var key0 := TaskKey(t.id);
    if r.0.clock.running && !t.clock.running {
      assert r.1 == StartLog(logs, taskLogId, key0, now);
      StartLogKeepsAtMostOne(logs, taskLogId, key0, now);
      forall key ensures OpenCount(r.1, key) == OpenCount(logs, key) + (if key == key0 then 1 else 0) {
        StartLogCount(logs, taskLogId, key0, now, key);
      }
    } else if !r.0.clock.running && t.clock.running {
      assert r.1 == StopLog(logs, key0, now);
      StopLogKeepsAtMostOne(logs, key0, now);
      forall key ensures OpenCount(r.1, key) == if key == key0 then 0 else OpenCount(logs, key) {
        StopLogCount(logs, key0, now, key);
      }
    }
  }

  lemma ToggleSubtaskPreserves(s: State, taskId: Id, subId: Id, subLogId: Id, taskLogId: Id, now: int)
    requires Consistent(s)
    ensures Consistent(ToggleSubtask(s, taskId, subId, subLogId, taskLogId, now))
  {
    var r := ToggleSubtask(s, taskId, subId, subLogId, taskLogId, now);
    if FindTask(s.tasks, taskId).Some? {
      var i := FindTask(s.tasks, taskId).value;
      var t := s.tasks[i];
      assert t.id == taskId && Tracks(t, s.logs);
      var f := FlipSub(t.subtasks, taskId, subId, subLogId, s.logs, now);
      FlipSubTracks(t, subId, subLogId, s.logs, now);
      ResyncTracks(t.(subtasks := f.0), f.1, taskLogId, now);
      SameIdsWellFormed(s.tasks, i, r.tasks[i]);
      OthersTrack(s, i, r.tasks, r.logs);
    }
  }

  // ----- restartTask -----

  lemma RestartTaskPreserves(s: State, taskId: Id, now: int)
    requires Consistent(s)
    ensures Consistent(RestartTask(s, taskId, now))
  {
    var r := RestartTask(s, taskId, now);
    if FindTask(s.tasks, taskId).Some? {
      var i := FindTask(s.tasks, taskId).value;
      var t, t' := s.tasks[i], r.tasks[i];
      SameIdsWellFormed(s.tasks, i, t');
      assert r.tasks == s.tasks[i := t'];
      var keys := RunningSubKeys(taskId, t.subtasks);
      var logs1 := if t.clock.running then StopLog(s.logs, TaskKey(taskId), now) else s.logs;
      if t.clock.running {
        StopLogKeepsAtMostOne(s.logs, TaskKey(taskId), now);
      }
      StopEachKeepsAtMostOne(logs1, keys, now);
      forall k ensures OpenCount(r.logs, k) ==
        if (k == TaskKey(taskId) && t.clock.running) || k in keys then 0 else OpenCount(s.logs, k)
      {
        StopLogCount(s.logs, TaskKey(taskId), now, k);
        StopEachCount(logs1, keys, now, k);
      }
      forall k | 0 <= k < |t'.subtasks|
        ensures OpenCount(r.logs, SubKey(t'.id, t'.subtasks[k].id)) == Flag(t'.subtasks[k].clock.running)
      {
        if !t.subtasks[k].clock.running {
          NotInRunningKeys(taskId, t.subtasks, k);
        }
      }
      OthersTrack(s, i, r.tasks, r.logs);
    }
  }

  // ----- deleteTask / deleteSubtask -----

  lemma ConsUnique(x: Id, ids: seq<Id>)
    requires UniqueIds(ids)
    requires forall j :: 0 <= j < |ids| ==> ids[j] != x
    ensures UniqueIds([x] + ids)
  {
    var all := [x] + ids;
    forall a, b | 0 <= a < b < |all| ensures all[a] != all[b] {
      assert all[b] == ids[b - 1];
      if a > 0 {
        assert all[a] == ids[a - 1];
      }
    }
  }

  /** Removing tasks introduces no id: an id no task had, no task has after. */
  lemma {:induction false} RemoveTasksAvoids(tasks: seq<Task>, taskId: Id, y: Id)
    requires forall j :: 0 <= j < |tasks| ==> tasks[j].id != y
    ensures forall j :: 0 <= j < |RemoveTasks(tasks, taskId)| ==> RemoveTasks(tasks, taskId)[j].id != y
  {
    if |tasks| > 0 {
      RemoveTasksAvoids(tasks[1..], taskId, y);
    }
  }

  lemma {:induction false} RemoveSubsAvoids(subs: seq<Subtask>, subId: Id, y: Id)
    requires forall j :: 0 <= j < |subs| ==> subs[j].id != y
    ensures forall j :: 0 <= j < |RemoveSubs(subs, subId)| ==> RemoveSubs(subs, subId)[j].id != y
  {
    if |subs| > 0 {
      RemoveSubsAvoids(subs[1..], subId, y);
    }
  }

  lemma {:induction false} RemoveTasksUnique(tasks: seq<Task>, taskId: Id)
    requires UniqueIds(TaskIds(tasks))
    ensures UniqueIds(TaskIds(RemoveTasks(tasks, taskId)))
  {
    if |tasks| > 0 {
      var tail := tasks[1..];
      assert TaskIds(tail) == TaskIds(tasks)[1..];
      RemoveTasksUnique(tail, taskId);
      var rest := RemoveTasks(tail, taskId);
      if tasks[0].id != taskId {
        forall j | 0 <= j < |tail| ensures tail[j].id != tasks[0].id {
          assert TaskIds(tasks)[j + 1] != TaskIds(tasks)[0];
        }
        RemoveTasksAvoids(tail, taskId, tasks[0].id);
        ConsUnique(tasks[0].id, TaskIds(rest));
        assert RemoveTasks(tasks, taskId) == [tasks[0]] + rest;
        assert TaskIds([tasks[0]] + rest) == [tasks[0].id] + TaskIds(rest);
      } else {
        assert RemoveTasks(tasks, taskId) == rest;
      }
    }
  }

  lemma {:induction false} RemoveSubsUnique(subs: seq<Subtask>, subId: Id)
    requires UniqueIds(SubIds(subs))
    ensures UniqueIds(SubIds(RemoveSubs(subs, subId)))
  {
    if |subs| > 0 {
      var tail := subs[1..];
      assert SubIds(tail) == SubIds(subs)[1..];
      RemoveSubsUnique(tail, subId);
      var rest := RemoveSubs(tail, subId);
      if subs[0].id != subId {
        forall j | 0 <= j < |tail| ensures tail[j].id != subs[0].id {
          assert SubIds(subs)[j + 1] != SubIds(subs)[0];
        }
        RemoveSubsAvoids(tail, subId, subs[0].id);
        ConsUnique(subs[0].id, SubIds(rest));
        assert RemoveSubs(subs, subId) == [subs[0]] + rest;
        assert SubIds([subs[0]] + rest) == [subs[0].id] + SubIds(rest);
      } else {
        assert RemoveSubs(subs, subId) == rest;
      }
    }
  }

  lemma DeleteTaskPreserves(s: State, taskId: Id)
    requires Consistent(s)
    ensures Consistent(DeleteTask(s, taskId))
  {
    var r := DeleteTask(s, taskId);
    RemoveTasksUnique(s.tasks, taskId);
    forall j | 0 <= j < |r.tasks|
      ensures UniqueIds(SubIds(r.tasks[j].subtasks)) && Tracks(r.tasks[j], r.logs)
    {
      assert r.tasks[j] in r.tasks;
      var m :| 0 <= m < |s.tasks| && s.tasks[m] == r.tasks[j];
    }
  }

  lemma DeleteSubtaskPreserves(s: State, taskId: Id, subId: Id, now: int)
    requires Consistent(s)
    ensures Consistent(DeleteSubtask(s, taskId, subId, now))
  {
    var r := DeleteSubtask(s, taskId, subId, now);
    if FindTask(s.tasks, taskId).Some? {
      var i := FindTask(s.tasks, taskId).value;
      var t, t' := s.tasks[i], r.tasks[i];
      RemoveSubsUnique(t.subtasks, subId);
      assert r.tasks == s.tasks[i := t'];
      assert TaskIds(r.tasks) == TaskIds(s.tasks);
      var wasRunning := match IndexOf(SubIds(t.subtasks), subId)
                        case Some(k) => t.subtasks[k].clock.running
                        case None => false;
      if wasRunning {
        StopLogKeepsAtMostOne(s.logs, SubKey(taskId, subId), now);
      }
      forall k ensures OpenCount(r.logs, k) ==
        if k == SubKey(taskId, subId) && wasRunning then 0 else OpenCount(s.logs, k)
      {
        StopLogCount(s.logs, SubKey(taskId, subId), now, k);
      }
      forall k | 0 <= k < |t'.subtasks|
        ensures OpenCount(r.logs, SubKey(t'.id, t'.subtasks[k].id)) == Flag(t'.subtasks[k].clock.running)
      {
        assert t'.subtasks[k] in t'.subtasks;
        var m :| 0 <= m < |t.subtasks| && t.subtasks[m] == t'.subtasks[k];
      }
      OthersTrack(s, i, r.tasks, r.logs);
    }
  }

  // ----- addTask / addSubtask -----

  lemma {:induction false} NoLogsNoneOpen(logs: seq<TimeLog>, key: LogKey)
    requires forall j :: 0 <= j < |logs| ==> logs[j].Key() != key
    ensures OpenCount(logs, key) == 0
  {
    if |logs| > 0 {
      NoLogsNoneOpen(logs[1..], key);
    }
  }

  /** A task created under an id that no task and no log carries keeps the
      ledger consistent. */
  lemma AddTaskPreserves(s: State, d: TaskDraft, id: Id, now: int)
    requires Consistent(s)
    requires id !in TaskIds(s.tasks)
    requires forall j :: 0 <= j < |s.logs| ==> s.logs[j].taskId != id
    ensures Consistent(AddTask(s, d, id, now).0)
  {
    var r := AddTask(s, d, id, now).0;
    if PositiveGoal(d.goalMs) {
      NoLogsNoneOpen(s.logs, TaskKey(id));
      assert TaskIds(r.tasks) == [id] + TaskIds(s.tasks);
      ConsUnique(id, TaskIds(s.tasks));
      forall j | 0 <= j < |r.tasks| ensures UniqueIds(SubIds(r.tasks[j].subtasks)) && Tracks(r.tasks[j], r.logs) {
        if j > 0 {
          assert r.tasks[j] == s.tasks[j - 1];
        }
      }
    }
  }

  /** A subtask created under an id that no subtask and no log carries keeps
      the ledger consistent. */
  lemma AddSubtaskPreserves(s: State, taskId: Id, name: string, goalMs: int, subId: Id, now: int)
    requires Consistent(s)
    requires forall i, k :: 0 <= i < |s.tasks| && 0 <= k < |s.tasks[i].subtasks| ==> s.tasks[i].subtasks[k].id != subId
    requires forall j :: 0 <= j < |s.logs| ==> s.logs[j].subtaskId != Some(subId)
    ensures Consistent(AddSubtask(s, taskId, name, goalMs, subId, now))
  {
    var r := AddSubtask(s, taskId, name, goalMs, subId, now);
    if FindTask(s.tasks, taskId).Some? {
      var i := FindTask(s.tasks, taskId).value;
      var t, t' := s.tasks[i], r.tasks[i];
      NoLogsNoneOpen(s.logs, SubKey(taskId, subId));
      assert TaskIds(r.tasks) == TaskIds(s.tasks);
      forall a, b | 0 <= a < b < |t'.subtasks| ensures SubIds(t'.subtasks)[a] != SubIds(t'.subtasks)[b] {
        if b < |t.subtasks| {
          assert SubIds(t.subtasks)[a] != SubIds(t.subtasks)[b];
        }
      }
      forall j | 0 <= j < |r.tasks| && j != i ensures UniqueIds(SubIds(r.tasks[j].subtasks)) && Tracks(r.tasks[j], r.logs) {
      }
      forall k | 0 <= k < |t'.subtasks|
        ensures OpenCount(r.logs, SubKey(t'.id, t'.subtasks[k].id)) == Flag(t'.subtasks[k].clock.running)
      {
        if k < |t.subtasks| {
          assert t'.subtasks[k] == t.subtasks[k];
        }
      }
    }
  }

  // ----- tick -----

  /** A countdown that tick will stop at `now`. */
  predicate Expires(c: Countdown, now: int) {
    Due(c, now) && now - c.lastUpdated >= c.remainingMs
  }

  /** As long as no countdown expires, tick keeps the ledger consistent: it
      changes no run flag and no log. */
  lemma TickPreservesWithoutExpiry(s: State, now: int)
    requires Consistent(s)
    requires forall i, k :: 0 <= i < |s.tasks| && 0 <= k <= |s.tasks[i].subtasks| ==> !Expires(Clocks(s.tasks[i])[k], now)
    ensures Consistent(State(TickAll(s.tasks, now), s.logs))
  {
    var r := TickAll(s.tasks, now);
    assert TaskIds(r) == TaskIds(s.tasks);
    forall i | 0 <= i < |r| ensures UniqueIds(SubIds(r[i].subtasks)) && Tracks(r[i], s.logs) {
      assert SubIds(r[i].subtasks) == SubIds(s.tasks[i].subtasks);
      assert !Expires(Clocks(s.tasks[i])[0], now);
      forall k | 0 <= k < |r[i].subtasks|
        ensures r[i].subtasks[k].clock.running == s.tasks[i].subtasks[k].clock.running
      {
        assert !Expires(Clocks(s.tasks[i])[k + 1], now);
      }
    }
  }
}
