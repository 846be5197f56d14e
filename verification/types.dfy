/** The records of the time-tracking dashboard: tasks, their subtasks, and the
    append-only ledger of start/stop intervals. All instants and durations are
    integer milliseconds; a goal in hours is kept as its millisecond value
    (hours x 3,600,000). */
module Types {

  datatype Option<+T> = None | Some(value: T)

  /** Opaque unique identity of a task, subtask or log. */
  type Id = string

  function Max(a: int, b: int): int { if a >= b then a else b }
  function Min(a: int, b: int): int { if a <= b then a else b }

  const MsPerHour: int := 3_600_000
  const MsPerMinute: int := 60_000

  datatype Urgency = Low | Medium | High

  /** The countdown fields a task and a subtask both carry: whether it is
      running, the remaining milliseconds, and the instant of the last
      reconciliation. */
  datatype Countdown = Countdown(running: bool, remainingMs: int, lastUpdated: int)

  /** `goalMs` is the subtask's hour goal in milliseconds. */
  datatype Subtask = Subtask(id: Id, name: string, goalMs: int, clock: Countdown)

  /** `goalMs` is the total hour goal and `dailyGoalMs` the daily intent
      (0 means unset), both in milliseconds. */
  datatype Task = Task(
    id: Id,
    name: string,
    goalMs: int,
    dailyGoalMs: int,
    goalDate: Option<string>,
    urgency: Urgency,
    clock: Countdown,
    subtasks: seq<Subtask>,
    pinned: bool,
    notes: string)

  /** The pair a log is recorded against: a task, and a subtask or none. */
  datatype LogKey = LogKey(taskId: Id, subtaskId: Option<Id>)

  /** One recorded interval; `endTs == None` means it is still open. */
  datatype TimeLog = TimeLog(id: Id, taskId: Id, subtaskId: Option<Id>, startTs: int, endTs: Option<int>)
  {
    function Key(): LogKey { LogKey(taskId, subtaskId) }
    predicate IsOpen() { endTs.None? }
  }

  /** The whole persisted document. */
  datatype State = State(tasks: seq<Task>, logs: seq<TimeLog>)

  function TaskKey(taskId: Id): LogKey { LogKey(taskId, None) }
  function SubKey(taskId: Id, subId: Id): LogKey { LogKey(taskId, Some(subId)) }

  function TaskIds(tasks: seq<Task>): (r: seq<Id>)
    ensures |r| == |tasks| && forall i :: 0 <= i < |tasks| ==> r[i] == tasks[i].id
  {
    seq(|tasks|, i requires 0 <= i < |tasks| => tasks[i].id)
  }

  function SubIds(subs: seq<Subtask>): (r: seq<Id>)
    ensures |r| == |subs| && forall i :: 0 <= i < |subs| ==> r[i] == subs[i].id
  {
    seq(|subs|, i requires 0 <= i < |subs| => subs[i].id)
  }

  /** Position of the first occurrence of `id`, as `Array.find` locates it. */
  function IndexOf(ids: seq<Id>, id: Id): (r: Option<nat>)
    ensures r.Some? ==> r.value < |ids| && ids[r.value] == id
                        && forall j :: 0 <= j < r.value ==> ids[j] != id
    ensures r.None? <==> forall j :: 0 <= j < |ids| ==> ids[j] != id
  {
    if |ids| == 0 then None
    else if ids[0] == id then Some(0)
    else match IndexOf(ids[1..], id)
      case None => None
      case Some(k) => Some(k + 1)
  }

  predicate UniqueIds(ids: seq<Id>) {
    forall i, j :: 0 <= i < j < |ids| ==> ids[i] != ids[j]
  }

  /** Task ids are distinct, and subtask ids are distinct within each task. */
  predicate WellFormed(tasks: seq<Task>) {
    && UniqueIds(TaskIds(tasks))
    && forall i :: 0 <= i < |tasks| ==> UniqueIds(SubIds(tasks[i].subtasks))
  }

  /** Number of running subtasks. */
  function RunningCount(subs: seq<Subtask>): nat {
    if |subs| == 0 then 0 else (if subs[0].clock.running then 1 else 0) + RunningCount(subs[1..])
  }

  /** Some subtask is running (`subtasks.some(s => s.running)`). */
  predicate AnyRunning(subs: seq<Subtask>) {
    exists k :: 0 <= k < |subs| && subs[k].clock.running
  }
}
