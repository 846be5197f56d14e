/** A session of the dashboard as a sequence of user actions and clock
    ticks over the persisted state. Every action keeps the ledger in step
    with the run flags, provided new ids are unused and no tick lets a
    countdown expire (expiry is the one path that breaks it; see Quirks). */
module Session {
  import opened Types
  import opened Tick
  import opened Engine
  import opened Invariant

  datatype Action =
    | NewTask(draft: TaskDraft, id: Id, now: int)
    | ToggleTaskAt(taskId: Id, logId: Id, now: int)
    | ToggleSubtaskAt(taskId: Id, subId: Id, subLogId: Id, taskLogId: Id, now: int)
    | NewSubtask(taskId: Id, name: string, goalMs: int, subId: Id, now: int)
    | Restart(taskId: Id, now: int)
    | RemoveTask(taskId: Id)
    | RemoveSubtask(taskId: Id, subId: Id, now: int)
    | TickAt(now: int)

  /** One handler, or one tick, applied to the whole state. */
  function Step(s: State, a: Action): State {
    match a
    case NewTask(d, id, now) => AddTask(s, d, id, now).0
    case ToggleTaskAt(taskId, logId, now) => ToggleTask(s, taskId, logId, now)
    case ToggleSubtaskAt(taskId, subId, subLogId, taskLogId, now) => ToggleSubtask(s, taskId, subId, subLogId, taskLogId, now)
    case NewSubtask(taskId, name, goalMs, subId, now) => AddSubtask(s, taskId, name, goalMs, subId, now)
    case Restart(taskId, now) => RestartTask(s, taskId, now)
    case RemoveTask(taskId) => DeleteTask(s, taskId)
    case RemoveSubtask(taskId, subId, now) => DeleteSubtask(s, taskId, subId, now)
    case TickAt(now) => State(TickAll(s.tasks, now), s.logs)
  }

  /** A new task or subtask id is carried by no task, subtask or log yet,
      and a tick expires no countdown. */
  predicate Admissible(s: State, a: Action) {
    match a
    case NewTask(_, id, _) =>
      id !in TaskIds(s.tasks) && forall j :: 0 <= j < |s.logs| ==> s.logs[j].taskId != id
    case NewSubtask(_, _, _, subId, _) =>
      && (forall i, k :: 0 <= i < |s.tasks| && 0 <= k < |s.tasks[i].subtasks| ==> s.tasks[i].subtasks[k].id != subId)
      && forall j :: 0 <= j < |s.logs| ==> s.logs[j].subtaskId != Some(subId)
    case TickAt(now) =>
      forall i, k :: 0 <= i < |s.tasks| && 0 <= k <= |s.tasks[i].subtasks| ==> !Expires(Clocks(s.tasks[i])[k], now)
    case _ => true
  }

  lemma StepPreserves(s: State, a: Action)
    requires Consistent(s) && Admissible(s, a)
    ensures Consistent(Step(s, a))
  {
    match a {
      case NewTask(d, id, now) => AddTaskPreserves(s, d, id, now);
      case ToggleTaskAt(taskId, logId, now) => ToggleTaskPreserves(s, taskId, logId, now);
      case ToggleSubtaskAt(taskId, subId, subLogId, taskLogId, now) =>
        ToggleSubtaskPreserves(s, taskId, subId, subLogId, taskLogId, now);
      case NewSubtask(taskId, name, goalMs, subId, now) => AddSubtaskPreserves(s, taskId, name, goalMs, subId, now);
      case Restart(taskId, now) => RestartTaskPreserves(s, taskId, now);
      case RemoveTask(taskId) => DeleteTaskPreserves(s, taskId);
      case RemoveSubtask(taskId, subId, now) => DeleteSubtaskPreserves(s, taskId, subId, now);
      case TickAt(now) => TickPreservesWithoutExpiry(s, now);
    }
  }

  /** The state after the actions, in order. */
  function Run(s: State, actions: seq<Action>): State
    decreases |actions|
  {
    if |actions| == 0 then s else Run(Step(s, actions[0]), actions[1..])
  }

  /** Each action is admissible in the state it is applied to. */
  predicate AllAdmissible(s: State, actions: seq<Action>)
    decreases |actions|
  {
    |actions| == 0 || (Admissible(s, actions[0]) && AllAdmissible(Step(s, actions[0]), actions[1..]))
  }

  /** The empty dashboard is consistent. */
  lemma EmptyConsistent()
    ensures Consistent(State([], []))
  {
    forall key: LogKey ensures Ledger.OpenCount([], key) <= 1 {
    }
  }

  /** From the empty dashboard, or any consistent state, a session of
      admissible actions ends consistent: every running task and subtask has
      exactly one open log, every stopped one none. */
  lemma {:induction false} RunPreserves(s: State, actions: seq<Action>)
    requires Consistent(s) && AllAdmissible(s, actions)
    ensures Consistent(Run(s, actions))
    decreases |actions|
  {
    if |actions| > 0 {
      StepPreserves(s, actions[0]);
      RunPreserves(Step(s, actions[0]), actions[1..]);
    }
  }
}
