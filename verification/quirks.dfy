/** Three behaviours of the engine as written that the ledger invariant does
    not survive or that surprise a user, each shown on a concrete state or
    proved for all states. */
module Quirks {
  import opened Types
  import opened Ledger
  import opened Tick
  import opened Engine
  import opened Invariant
  import opened Analytics

  /** One task "a" with one second left, running since instant 0, and its open log. */
  function RunningTask(): State {
    State([Task("a", "Read", 1000, 0, None, Medium, Countdown(true, 1000, 0), [], false, "")],
          [TimeLog("l1", "a", None, 0, None)])
  }

  lemma RunningTaskConsistent()
    ensures Consistent(RunningTask())
  {
    var s := RunningTask();
    forall key ensures OpenCount(s.logs, key) <= 1 {
      assert OpenCount(s.logs[1..], key) == 0;
    }
  }

  /** Countdown expiry clears `running` but leaves the log open, so the
      ledger no longer agrees with the task; starting the task again then
      opens a second log for the same key. */
  lemma ExpiryThenStartOpensSecondLog()
    ensures Consistent(RunningTask())
    ensures var s1 := State(TickAll(RunningTask().tasks, 1000), RunningTask().logs);
      && !s1.tasks[0].clock.running && s1.tasks[0].clock.remainingMs == 0
      && OpenCount(s1.logs, TaskKey("a")) == 1
      && !Consistent(s1)
      && var s2 := ToggleTask(s1, "a", "l2", 2000);
         OpenCount(s2.logs, TaskKey("a")) == 2 && !AtMostOneOpen(s2.logs)
  {
    RunningTaskConsistent();
    var s0 := RunningTask();
    var s1 := State(TickAll(s0.tasks, 1000), s0.logs);
    assert s1.tasks[0].clock == Countdown(false, 0, 1000);
    assert OpenCount(s1.logs, TaskKey("a")) == 1 by {
      assert OpenCount(s1.logs[1..], TaskKey("a")) == 0;
    }
    assert !Tracks(s1.tasks[0], s1.logs);
    assert FindTask(s1.tasks, "a") == Some(0);
    var s2 := ToggleTask(s1, "a", "l2", 2000);
    assert s2.logs == StartLog(s1.logs, "l2", TaskKey("a"), 2000);
    StartLogCount(s1.logs, "l2", TaskKey("a"), 2000, TaskKey("a"));
  }

  /** The second log then overlaps the first, and pausing the task closes
      both at the same instant. The task ran one second before expiry and
      one after the restart, yet the window total is four seconds: the first
      log also spans the idle second, and the second after the restart is
      counted twice. */
  lemma ExpiryThenRestartCountsTwice()
    ensures var s1 := State(TickAll(RunningTask().tasks, 1000), RunningTask().logs);
      var s2 := ToggleTask(s1, "a", "l2", 2000);
      var s3 := ToggleTask(s2, "a", "l3", 3000);
      && s3.logs == [TimeLog("l1", "a", None, 0, Some(3000)), TimeLog("l2", "a", None, 2000, Some(3000))]
      && WindowTotal(s3.logs, 0) == 4000
  {
    var s0 := RunningTask();
    var s1 := State(TickAll(s0.tasks, 1000), s0.logs);
    assert s1.tasks[0].clock == Countdown(false, 0, 1000);
    assert FindTask(s1.tasks, "a") == Some(0);
    var s2 := ToggleTask(s1, "a", "l2", 2000);
    assert s2.logs == [TimeLog("l1", "a", None, 0, None), TimeLog("l2", "a", None, 2000, None)];
    assert s2.tasks[0].clock.running && s2.tasks[0].subtasks == [];
    assert FindTask(s2.tasks, "a") == Some(0);
    var s3 := ToggleTask(s2, "a", "l3", 3000);
    assert RunningSubKeys("a", s2.tasks[0].subtasks) == [];
    var logs := StopLog(s2.logs, TaskKey("a"), 3000);
    assert logs == [TimeLog("l1", "a", None, 0, Some(3000)), TimeLog("l2", "a", None, 2000, Some(3000))];
    assert StopEach(logs, [], 3000) == logs;
    assert logs[..1][..0] == [];
  }

  /** Deleting a running task keeps its open log: afterwards an open log
      names a task that no longer exists. */
  lemma DeleteRunningTaskOrphansLog(s: State, taskId: Id)
    requires Consistent(s)
    requires FindTask(s.tasks, taskId).Some? && s.tasks[FindTask(s.tasks, taskId).value].clock.running
    ensures var r := DeleteTask(s, taskId);
      && OpenCount(r.logs, TaskKey(taskId)) == 1
      && taskId !in TaskIds(r.tasks)
  {
    var r := DeleteTask(s, taskId);
    assert Tracks(s.tasks[FindTask(s.tasks, taskId).value], s.logs);
    forall j | 0 <= j < |r.tasks| ensures TaskIds(r.tasks)[j] != taskId {
      assert r.tasks[j].id != taskId;
    }
  }

  /** A task the user started directly, with no subtask running, is stopped
      by starting and then pausing one of its subtasks: the resync makes the
      task's flag follow its subtasks. */
  lemma SubtaskRoundTripStopsDirectTask(s: State, taskId: Id, subId: Id, l1: Id, l2: Id, l3: Id, l4: Id, now1: int, now2: int)
    requires FindTask(s.tasks, taskId).Some?
    requires var t := s.tasks[FindTask(s.tasks, taskId).value];
      t.clock.running && !AnyRunning(t.subtasks) && subId in SubIds(t.subtasks)
    ensures var i := FindTask(s.tasks, taskId).value;
      var s1 := ToggleSubtask(s, taskId, subId, l1, l2, now1);
      var s2 := ToggleSubtask(s1, taskId, subId, l3, l4, now2);
      s1.tasks[i].clock.running && !s2.tasks[i].clock.running && !AnyRunning(s2.tasks[i].subtasks)
  {
    var i := FindTask(s.tasks, taskId).value;
    var s1 := ToggleSubtask(s, taskId, subId, l1, l2, now1);
    var m := IndexOf(SubIds(s.tasks[i].subtasks), subId).value;
    assert s1.tasks[i].subtasks[m].clock.running;
    assert TaskIds(s1.tasks) == TaskIds(s.tasks);
    assert SubIds(s1.tasks[i].subtasks) == SubIds(s.tasks[i].subtasks);
    var s2 := ToggleSubtask(s1, taskId, subId, l3, l4, now2);
    forall k | 0 <= k < |s2.tasks[i].subtasks| ensures !s2.tasks[i].subtasks[k].clock.running {
      assert k != m ==> !s.tasks[i].subtasks[k].clock.running;
    }
  }

  /** The same on a concrete task: started directly, its 25-minute subtask
      started and paused, the task ends up stopped with its log closed. */
  lemma DirectTaskStoppedBySubtask()
    ensures var s0 := State([Task("a", "Read", 1000, 0, None, Medium, Countdown(true, 1000, 0),
                                  [Subtask("s", "25m Focus", 1_500_000, Countdown(false, 1_500_000, 0))], false, "")],
                            [TimeLog("l1", "a", None, 0, None)]);
      var s1 := ToggleSubtask(s0, "a", "s", "l2", "l3", 10);
      var s2 := ToggleSubtask(s1, "a", "s", "l4", "l5", 20);
      && s1.tasks[0].clock.running && |s1.logs| == 2
      && !s2.tasks[0].clock.running && OpenCount(s2.logs, TaskKey("a")) == 0
  {
    var s0 := State([Task("a", "Read", 1000, 0, None, Medium, Countdown(true, 1000, 0),
                           [Subtask("s", "25m Focus", 1_500_000, Countdown(false, 1_500_000, 0))], false, "")],
                     [TimeLog("l1", "a", None, 0, None)]);
    assert FindTask(s0.tasks, "a") == Some(0);
    assert IndexOf(SubIds(s0.tasks[0].subtasks), "s") == Some(0);
    var s1 := ToggleSubtask(s0, "a", "s", "l2", "l3", 10);
    assert AnyRunning(s1.tasks[0].subtasks);
    assert FindTask(s1.tasks, "a") == Some(0);
    assert IndexOf(SubIds(s1.tasks[0].subtasks), "s") == Some(0);
    assert s1.tasks[0].subtasks[0].clock.running;
  }
}
