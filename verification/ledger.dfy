/** The time ledger: `startLog` appends an open interval for a key and
    `stopLog` closes every open interval of a key. Neither removes a log. */
module Ledger {
  import opened Types

  /** Number of open logs recorded against `key`. */
  function OpenCount(logs: seq<TimeLog>, key: LogKey): nat {
    if |logs| == 0 then 0
    else (if logs[0].IsOpen() && logs[0].Key() == key then 1 else 0) + OpenCount(logs[1..], key)
  }

  /** Number of open logs, whatever their key. */
  function TotalOpen(logs: seq<TimeLog>): nat {
    if |logs| == 0 then 0
    else (if logs[0].IsOpen() then 1 else 0) + TotalOpen(logs[1..])
  }

  /** The ledger invariant: no key has two open logs. */
  ghost predicate AtMostOneOpen(logs: seq<TimeLog>) {
    forall key :: OpenCount(logs, key) <= 1
  }

  lemma {:induction false} OpenCountAppend(a: seq<TimeLog>, b: seq<TimeLog>, key: LogKey)
    ensures OpenCount(a + b, key) == OpenCount(a, key) + OpenCount(b, key)
  {
    if |a| > 0 {
      assert (a + b)[1..] == a[1..] + b;
      OpenCountAppend(a[1..], b, key);
    } else {
      assert a + b == b;
    }
  }

  lemma {:induction false} TotalOpenAppend(a: seq<TimeLog>, b: seq<TimeLog>)
    ensures TotalOpen(a + b) == TotalOpen(a) + TotalOpen(b)
  {
    if |a| > 0 {
      assert (a + b)[1..] == a[1..] + b;
      TotalOpenAppend(a[1..], b);
    } else {
      assert a + b == b;
    }
  }

  /** `startLog`: appends one open log for `key` stamped `now`. */
  function StartLog(logs: seq<TimeLog>, logId: Id, key: LogKey, now: int): (r: seq<TimeLog>)
    ensures |r| == |logs| + 1 && r[..|logs|] == logs
    ensures r[|logs|].IsOpen() && r[|logs|].Key() == key && r[|logs|].startTs == now
  {
    logs + [TimeLog(logId, key.taskId, key.subtaskId, now, None)]
  }

  /** Starting a log adds exactly one open log for its key and none for any other. */
  lemma StartLogCount(logs: seq<TimeLog>, logId: Id, key: LogKey, now: int, k: LogKey)
    ensures OpenCount(StartLog(logs, logId, key, now), k) == OpenCount(logs, k) + (if k == key then 1 else 0)
    ensures TotalOpen(StartLog(logs, logId, key, now)) == TotalOpen(logs) + 1
  {
    var l := TimeLog(logId, key.taskId, key.subtaskId, now, None);
    OpenCountAppend(logs, [l], k);
    TotalOpenAppend(logs, [l]);
  }

  /** Starting a log for a key with no open log keeps the ledger invariant. */
  /** `StartLogCount` for every key at once. */
  lemma StartLogCounts(logs: seq<TimeLog>, logId: Id, key: LogKey, now: int)
    ensures forall k :: OpenCount(StartLog(logs, logId, key, now), k) == OpenCount(logs, k) + (if k == key then 1 else 0)
  {
    forall k ensures OpenCount(StartLog(logs, logId, key, now), k) == OpenCount(logs, k) + (if k == key then 1 else 0) {
      StartLogCount(logs, logId, key, now, k);
    }
  }

  lemma StartLogKeepsAtMostOne(logs: seq<TimeLog>, logId: Id, key: LogKey, now: int)
    requires AtMostOneOpen(logs) && OpenCount(logs, key) == 0
    ensures AtMostOneOpen(StartLog(logs, logId, key, now))
  {
    forall k ensures OpenCount(StartLog(logs, logId, key, now), k) <= 1 {
      StartLogCount(logs, logId, key, now, k);
    }
  }

  function Close(l: TimeLog, key: LogKey, now: int): TimeLog {
    if l.IsOpen() && l.Key() == key then l.(endTs := Some(now)) else l
  }

  /** `stopLog`: stamps `endTs := now` on every open log of `key`; every other
      log, and every log already closed, stays as it was. */
  function StopLog(logs: seq<TimeLog>, key: LogKey, now: int): (r: seq<TimeLog>)
    ensures |r| == |logs|
    ensures forall i :: 0 <= i < |logs| ==>
      if logs[i].IsOpen() && logs[i].Key() == key then r[i] == logs[i].(endTs := Some(now))
      else r[i] == logs[i]
  {
    if |logs| == 0 then [] else [Close(logs[0], key, now)] + StopLog(logs[1..], key, now)
  }

  /** After stopping, the key has no open log; other keys keep their count. */
  lemma {:induction false} StopLogCount(logs: seq<TimeLog>, key: LogKey, now: int, k: LogKey)
    ensures OpenCount(StopLog(logs, key, now), k) == if k == key then 0 else OpenCount(logs, k)
  {
    if |logs| > 0 {
      StopLogCount(logs[1..], key, now, k);
      assert StopLog(logs, key, now)[1..] == StopLog(logs[1..], key, now);
    }
  }

  /** `StopLogCount` for every key at once. */
  lemma StopLogCounts(logs: seq<TimeLog>, key: LogKey, now: int)
    ensures forall k :: OpenCount(StopLog(logs, key, now), k) == if k == key then 0 else OpenCount(logs, k)
  {
    forall k ensures OpenCount(StopLog(logs, key, now), k) == if k == key then 0 else OpenCount(logs, k) {
      StopLogCount(logs, key, now, k);
    }
  }

  /** Stopping closes exactly the open logs of the key. */
  lemma {:induction false} StopLogTotal(logs: seq<TimeLog>, key: LogKey, now: int)
    ensures TotalOpen(StopLog(logs, key, now)) == TotalOpen(logs) - OpenCount(logs, key)
  {
    if |logs| > 0 {
      StopLogTotal(logs[1..], key, now);
      assert StopLog(logs, key, now)[1..] == StopLog(logs[1..], key, now);
    }
  }

  /** Closing a key with no open log is a no-op. */
  lemma {:induction false} StopLogNoop(logs: seq<TimeLog>, key: LogKey, now: int)
    requires OpenCount(logs, key) == 0
    ensures StopLog(logs, key, now) == logs
  {
    if |logs| > 0 {
      StopLogNoop(logs[1..], key, now);
    }
  }

  lemma StopLogKeepsAtMostOne(logs: seq<TimeLog>, key: LogKey, now: int)
    requires AtMostOneOpen(logs)
    ensures AtMostOneOpen(StopLog(logs, key, now))
  {
    forall k ensures OpenCount(StopLog(logs, key, now), k) <= 1 {
      StopLogCount(logs, key, now, k);
    }
  }

  /** Calls `stopLog` once per key, in order. */
  function StopEach(logs: seq<TimeLog>, keys: seq<LogKey>, now: int): (r: seq<TimeLog>)
    ensures |r| == |logs|
    ensures forall i :: 0 <= i < |logs| ==>
      if logs[i].IsOpen() && logs[i].Key() in keys then r[i] == logs[i].(endTs := Some(now))
      else r[i] == logs[i]
    decreases |keys|
  {
    if |keys| == 0 then logs
    else
      assert forall k :: k in keys ==> k == keys[0] || k in keys[1..];
      StopEach(StopLog(logs, keys[0], now), keys[1..], now)
  }

  lemma {:induction false} StopEachCount(logs: seq<TimeLog>, keys: seq<LogKey>, now: int, k: LogKey)
    ensures OpenCount(StopEach(logs, keys, now), k) == if k in keys then 0 else OpenCount(logs, k)
    decreases |keys|
  {
    if |keys| > 0 {
      StopLogCount(logs, keys[0], now, k);
      StopEachCount(StopLog(logs, keys[0], now), keys[1..], now, k);
      assert k in keys <==> k == keys[0] || k in keys[1..];
    }
  }

  lemma StopEachKeepsAtMostOne(logs: seq<TimeLog>, keys: seq<LogKey>, now: int)
    requires AtMostOneOpen(logs)
    ensures AtMostOneOpen(StopEach(logs, keys, now))
  {
    forall k ensures OpenCount(StopEach(logs, keys, now), k) <= 1 {
      StopEachCount(logs, keys, now, k);
    }
  }

  predicate DistinctKeys(keys: seq<LogKey>) {
    forall i, j :: 0 <= i < j < |keys| ==> keys[i] != keys[j]
  }

  /** Stopping n distinct keys that each have one open log closes exactly n logs. */
  lemma {:induction false} StopEachTotal(logs: seq<TimeLog>, keys: seq<LogKey>, now: int)
    requires DistinctKeys(keys)
    requires forall i :: 0 <= i < |keys| ==> OpenCount(logs, keys[i]) == 1
    ensures TotalOpen(StopEach(logs, keys, now)) + |keys| == TotalOpen(logs)
    decreases |keys|
  {
    if |keys| > 0 {
      var logs' := StopLog(logs, keys[0], now);
      StopLogTotal(logs, keys[0], now);
      forall i | 0 <= i < |keys[1..]| ensures OpenCount(logs', keys[1..][i]) == 1 {
        StopLogCount(logs, keys[0], now, keys[1..][i]);
        assert keys[1..][i] == keys[i + 1];
      }
      StopEachTotal(logs', keys[1..], now);
    }
  }
}
