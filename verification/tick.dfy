/** The once-a-second reconciliation of every countdown (App.tsx 53-82),
    written as a pure function of the current instant `now`. Elapsed wall
    time since `lastUpdated` is charged, not a fixed decrement. */
module Tick {
  import opened Types

  /** A countdown that is running, has time left and whose clock has moved. */
  predicate Due(c: Countdown, now: int) {
    c.running && c.remainingMs > 0 && now - c.lastUpdated > 0
  }

  /** One reconciliation of a task's or a subtask's countdown. */
  function Advance(c: Countdown, now: int): (r: Countdown)
    ensures r.remainingMs <= c.remainingMs
    ensures r != c ==> r.remainingMs >= 0
    ensures !Due(c, now) ==> r == c
    ensures Due(c, now) ==>
      r.lastUpdated == now && c.remainingMs - r.remainingMs == Min(c.remainingMs, now - c.lastUpdated)
    ensures c.remainingMs > 0 && r.remainingMs == 0 ==> !r.running
    ensures r.running != c.running <==> Due(c, now) && now - c.lastUpdated >= c.remainingMs
    ensures r.running ==> c.running
  {
    if Due(c, now) then
      var rem := Max(0, c.remainingMs - (now - c.lastUpdated));
      c.(remainingMs := rem, lastUpdated := now, running := if rem == 0 then false else c.running)
    else c
  }

  function TickSubtask(s: Subtask, now: int): Subtask {
    s.(clock := Advance(s.clock, now))
  }

  function TickTask(t: Task, now: int): Task {
    t.(clock := Advance(t.clock, now),
       subtasks := seq(|t.subtasks|, k requires 0 <= k < |t.subtasks| => TickSubtask(t.subtasks[k], now)))
  }

  /** The tick updater: every task and every subtask reconciled at `now`.
      Only countdowns change; identities, names, goals and the order of
      tasks and subtasks are kept. */
  function TickAll(tasks: seq<Task>, now: int): (r: seq<Task>)
    ensures |r| == |tasks|
    ensures forall i :: 0 <= i < |tasks| ==>
      && r[i].(clock := tasks[i].clock, subtasks := tasks[i].subtasks) == tasks[i]
      && |r[i].subtasks| == |tasks[i].subtasks|
      && forall k :: 0 <= k < |tasks[i].subtasks| ==>
           r[i].subtasks[k].(clock := tasks[i].subtasks[k].clock) == tasks[i].subtasks[k]
  {
    seq(|tasks|, i requires 0 <= i < |tasks| => TickTask(tasks[i], now))
  }

  /** Every countdown of a task, its own first and then its subtasks'. */
  function Clocks(t: Task): (r: seq<Countdown>)
    ensures |r| == |t.subtasks| + 1 && r[0] == t.clock
    ensures forall k :: 0 <= k < |t.subtasks| ==> r[k + 1] == t.subtasks[k].clock
  {
    [t.clock] + seq(|t.subtasks|, k requires 0 <= k < |t.subtasks| => t.subtasks[k].clock)
  }

  /** Tick never adds time and never leaves a changed countdown negative, for
      tasks and subtasks alike; a countdown it brings to zero stops, and one
      that is not due is left exactly as it was. */
  lemma TickCountdowns(tasks: seq<Task>, now: int, i: nat, k: nat)
    requires i < |tasks| && k <= |tasks[i].subtasks|
    ensures var c := Clocks(tasks[i])[k]; var c' := Clocks(TickAll(tasks, now)[i])[k];
      && c'.remainingMs <= c.remainingMs
      && (c' != c ==> c'.remainingMs >= 0)
      && (c.remainingMs > 0 && c'.remainingMs == 0 ==> !c'.running)
      && (!Due(c, now) ==> c' == c)
      && (c'.running ==> c.running)
  {
    if k > 0 {
      assert Clocks(TickAll(tasks, now)[i])[k] == Advance(Clocks(tasks[i])[k], now);
    }
  }

  /** Ticking twice at the same instant is ticking once. */
  lemma TickIdempotent(tasks: seq<Task>, now: int)
    ensures TickAll(TickAll(tasks, now), now) == TickAll(tasks, now)
  {
    var once := TickAll(tasks, now);
    forall i | 0 <= i < |tasks| ensures TickTask(once[i], now) == once[i] {
      assert Advance(once[i].clock, now) == once[i].clock;
      assert TickTask(once[i], now).subtasks == once[i].subtasks;
    }
  }

  /** Drift-free catch-up: a tick at `t1` followed by one at `t2 >= t1` leaves
      the same remaining time and run flag as a single tick at `t2`. */
  lemma AdvanceCatchUp(c: Countdown, t1: int, t2: int)
    requires t1 <= t2
    ensures Advance(Advance(c, t1), t2).remainingMs == Advance(c, t2).remainingMs
    ensures Advance(Advance(c, t1), t2).running == Advance(c, t2).running
  {
  }

  /** The expiry step that the catch-up cannot undo: the instant recorded
      differs, because an expired countdown is no longer due. */
  lemma CatchUpKeepsExpiryInstant()
    ensures var c := Countdown(true, 1000, 0);
      Advance(Advance(c, 2000), 5000).lastUpdated == 2000 && Advance(c, 5000).lastUpdated == 5000
  {
  }

  lemma TickCatchUp(tasks: seq<Task>, t1: int, t2: int, i: nat, k: nat)
    requires t1 <= t2 && i < |tasks| && k <= |tasks[i].subtasks|
    ensures Clocks(TickAll(TickAll(tasks, t1), t2)[i])[k].remainingMs == Clocks(TickAll(tasks, t2)[i])[k].remainingMs
    ensures Clocks(TickAll(TickAll(tasks, t1), t2)[i])[k].running == Clocks(TickAll(tasks, t2)[i])[k].running
  {
    AdvanceCatchUp(Clocks(tasks[i])[k], t1, t2);
    if k > 0 {
      assert Clocks(TickAll(tasks, t1)[i])[k] == Advance(Clocks(tasks[i])[k], t1);
      assert Clocks(TickAll(TickAll(tasks, t1), t2)[i])[k] == Advance(Clocks(TickAll(tasks, t1)[i])[k], t2);
      assert Clocks(TickAll(tasks, t2)[i])[k] == Advance(Clocks(tasks[i])[k], t2);
    }
  }
}
