/** The two pieces of logic in a task card (components/TaskCard.tsx): the
    `isActive` highlight and the guard of the subtask form, whose preset
    buttons add 25- and 50-minute focus blocks. */
module TaskCard {
  import opened Types
  import opened Ledger
  import opened Engine
  import opened Invariant
  import opened Format

  /** The card is highlighted while the task or any of its subtasks runs. */
  predicate IsActive(t: Task) {
    t.clock.running || AnyRunning(t.subtasks)
  }

  /** After a subtask toggle the task's own flag alone tells whether the
      card is highlighted. */
  lemma ToggleSubtaskActivity(s: State, taskId: Id, subId: Id, subLogId: Id, taskLogId: Id, now: int)
    requires FindTask(s.tasks, taskId).Some?
    ensures var i := FindTask(s.tasks, taskId).value;
      var t' := ToggleSubtask(s, taskId, subId, subLogId, taskLogId, now).tasks[i];
      IsActive(t') <==> t'.clock.running
  {
  }

  /** Pausing a task switches its card off; starting it switches it on. */
  lemma ToggleTaskActivity(s: State, taskId: Id, logId: Id, now: int)
    requires FindTask(s.tasks, taskId).Some?
    ensures var i := FindTask(s.tasks, taskId).value;
      var t' := ToggleTask(s, taskId, logId, now).tasks[i];
      IsActive(t') == !s.tasks[i].clock.running
  {
  }

  /** While the ledger tracks the tasks, a card is highlighted exactly when
      one of its keys (the task's, or one of its subtasks') has an open log. */
  lemma ActiveIffOpenLog(s: State, i: nat)
    requires Consistent(s) && i < |s.tasks|
    ensures var t := s.tasks[i];
      IsActive(t) <==>
        (OpenCount(s.logs, TaskKey(t.id)) == 1
         || exists k :: 0 <= k < |t.subtasks| && OpenCount(s.logs, SubKey(t.id, t.subtasks[k].id)) == 1)
  {
    var t := s.tasks[i];
    assert Tracks(t, s.logs);
  }

  /** The card's subtask form: the name field, and the hour field parsed to
      milliseconds (`None` where `parseFloat` yields NaN). */
  datatype SubDraft = SubDraft(name: string, goalMs: Option<int>)

  /** The subtask the form asks the app to add. */
  datatype SubRequest = SubRequest(name: string, goalMs: int)

  /** A preset argument is truthy when present and non-zero. */
  predicate Truthy(preset: Option<int>) {
    preset.Some? && preset.value != 0
  }

  /** The request `handleAddSub` makes, if any. A preset of m minutes names
      the subtask "<m>m Focus" with an m-minute goal; without one, the typed
      name and hours are used. Nothing is requested unless there is a name
      and the goal is positive. */
  function SubRequestFor(preset: Option<int>, d: SubDraft): (r: Option<SubRequest>)
    ensures r.Some? ==> r.value.name != [] && r.value.goalMs > 0
    ensures Truthy(preset) ==> (r.Some? <==> preset.value > 0)
    ensures Truthy(preset) && r.Some? ==>
      r.value == SubRequest(IntToString(preset.value) + "m Focus", preset.value * MsPerMinute)
    ensures !Truthy(preset) ==> (r.Some? <==> d.name != [] && PositiveGoal(d.goalMs))
    ensures !Truthy(preset) && r.Some? ==> r.value == SubRequest(d.name, d.goalMs.value)
  {
    if Truthy(preset) then
      var m := preset.value;
      if m > 0 then Some(SubRequest(IntToString(m) + "m Focus", m * MsPerMinute)) else None
    else if d.name != [] && PositiveGoal(d.goalMs) then Some(SubRequest(d.name, d.goalMs.value))
    else None
  }

  /** `handleAddSub`: on a request, adds the subtask to the task and clears
      both fields; otherwise changes nothing. */
  function HandleAddSub(s: State, taskId: Id, preset: Option<int>, d: SubDraft, subId: Id, now: int): (r: (State, SubDraft))
    ensures SubRequestFor(preset, d).None? ==> r == (s, d)
    ensures SubRequestFor(preset, d).Some? ==>
      && r.1 == SubDraft([], None) && r.0.logs == s.logs && |r.0.tasks| == |s.tasks|
      && (FindTask(s.tasks, taskId).None? ==> r.0 == s)
      && (FindTask(s.tasks, taskId).Some? ==>
            var i := FindTask(s.tasks, taskId).value;
            var t, t' := s.tasks[i], r.0.tasks[i];
            var req := SubRequestFor(preset, d).value;
            && |t'.subtasks| == |t.subtasks| + 1
            && t'.subtasks[..|t.subtasks|] == t.subtasks
            && var sub := t'.subtasks[|t.subtasks|];
               sub == Subtask(subId, req.name, req.goalMs, Countdown(false, req.goalMs, now))
               && sub.clock.remainingMs > 0)
  {
    match SubRequestFor(preset, d)
    case None => (s, d)
    case Some(req) => (AddSubtask(s, taskId, req.name, req.goalMs, subId, now), SubDraft([], None))
  }

  /** The 25-minute preset adds a stopped "25m Focus" subtask with 25
      minutes on its countdown, whatever the form holds. */
  lemma PresetTwentyFive(s: State, taskId: Id, d: SubDraft, subId: Id, now: int)
    requires FindTask(s.tasks, taskId).Some?
    ensures var i := FindTask(s.tasks, taskId).value;
      var r := HandleAddSub(s, taskId, Some(25), d, subId, now);
      && r.1 == SubDraft([], None)
      && r.0.tasks[i].subtasks == s.tasks[i].subtasks + [Subtask(subId, "25m Focus", 1_500_000, Countdown(false, 1_500_000, now))]
  {
    assert NatToString(25) == NatToString(2) + ['5'] == "25";
    assert IntToString(25) + "m Focus" == "25m Focus";
    assert SubRequestFor(Some(25), d) == Some(SubRequest("25m Focus", 1_500_000));
  }

  /** A custom add with an empty name is refused even with positive hours,
      and a named one with NaN hours is refused too. */
  lemma CustomAddNeedsNameAndHours(s: State, taskId: Id, name: string, goalMs: Option<int>, subId: Id, now: int)
    ensures HandleAddSub(s, taskId, None, SubDraft([], goalMs), subId, now) == (s, SubDraft([], goalMs))
    ensures HandleAddSub(s, taskId, None, SubDraft(name, None), subId, now) == (s, SubDraft(name, None))
  {
  }

  /** The card's form as written: only the name is bound to an input. The
      hours field starts empty and is only ever reset to empty, so it always
      parses to NaN. */
  function CardDraft(name: string): SubDraft {
    SubDraft(name, None)
  }

  /** As written, the custom "+" button never adds a subtask: whatever name
      is typed, the form's hours read NaN and the guard refuses. */
  lemma CardCustomAddInert(s: State, taskId: Id, name: string, subId: Id, now: int)
    ensures HandleAddSub(s, taskId, None, CardDraft(name), subId, now) == (s, CardDraft(name))
  {
  }

  /** With an hours field bound to the form, a named custom add with a
      positive goal appends that subtask, stopped and full, and clears the
      form. */
  lemma CustomAddWithHours(s: State, taskId: Id, name: string, goalMs: int, subId: Id, now: int)
    requires FindTask(s.tasks, taskId).Some? && name != [] && goalMs > 0
    ensures var i := FindTask(s.tasks, taskId).value;
      var r := HandleAddSub(s, taskId, None, SubDraft(name, Some(goalMs)), subId, now);
      && r.1 == SubDraft([], None)
      && r.0.tasks[i].subtasks == s.tasks[i].subtasks + [Subtask(subId, name, goalMs, Countdown(false, goalMs, now))]
  {
  }
}
