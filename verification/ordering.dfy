/** The display order of the task list (App.tsx 242-249): pinned tasks
    first, then, when sorting by urgency, high before medium before low. The
    source hands its comparator to the stable `Array.prototype.sort`; the
    model sorts by insertion, which is stable, and proves the result is the
    comparator's stable order. */
module Ordering {
  import opened Types

  /** The sort selector: 'date' | 'urgency' | 'none'. */
  datatype SortBy = ByDate | ByUrgency | Unsorted

  function Weight(u: Urgency): int {
    match u
    case High => 0
    case Medium => 1
    case Low => 2
  }

  /** The comparator as written: negative when `a` goes first. */
  function Compare(a: Task, b: Task, order: SortBy): int {
    if a.pinned != b.pinned then (if a.pinned then -1 else 1)
    else if order == ByUrgency then Weight(a.urgency) - Weight(b.urgency)
    else 0
  }

  /** The position class a task falls into under `order`. */
  function Rank(t: Task, order: SortBy): nat {
    (if t.pinned then 0 else 3) + (if order == ByUrgency then Weight(t.urgency) else 0)
  }

  /** The comparator orders tasks exactly as their ranks do, so sorting by it
      is sorting by rank. */
  lemma CompareIsRankOrder(a: Task, b: Task, order: SortBy)
    ensures Compare(a, b, order) < 0 <==> Rank(a, order) < Rank(b, order)
    ensures Compare(a, b, order) == 0 <==> Rank(a, order) == Rank(b, order)
  {
  }

  ghost predicate Sorted(s: seq<Task>, order: SortBy) {
    forall i, j :: 0 <= i < j < |s| ==> Rank(s[i], order) <= Rank(s[j], order)
  }

  /** Puts `x` after every task of rank at most its own. */
  function Insert(x: Task, s: seq<Task>, order: SortBy): (r: seq<Task>)
    ensures |r| == |s| + 1
    ensures forall y :: y in r <==> y == x || y in s
    ensures Sorted(s, order) ==> Sorted(r, order)
  {
    if |s| == 0 then [x]
    else if Rank(x, order) < Rank(s[0], order) then [x] + s
    else
      var rest := Insert(x, s[1..], order);
      assert s == [s[0]] + s[1..];
      var r := [s[0]] + rest;
      assert Sorted(s, order) ==> Sorted(r, order) by {
        if Sorted(s, order) {
          forall i, j | 0 <= i < j < |r| ensures Rank(r[i], order) <= Rank(r[j], order) {
            if i == 0 {
              assert r[j] == rest[j - 1] && r[j] in rest;
            }
          }
        }
      }
      r
  }

  lemma {:induction false} InsertPermutes(x: Task, s: seq<Task>, order: SortBy)
    ensures multiset(Insert(x, s, order)) == multiset(s) + multiset{x}
  {
    if |s| > 0 && Rank(x, order) >= Rank(s[0], order) {
      InsertPermutes(x, s[1..], order);
      assert s == [s[0]] + s[1..];
      assert Insert(x, s, order) == [s[0]] + Insert(x, s[1..], order);
    }
  }

  /** `sortedTasks`: the tasks in display order, every pinned task before
      every unpinned one and no pair in an order the comparator rejects. */
  function SortTasks(tasks: seq<Task>, order: SortBy): (r: seq<Task>)
    ensures |r| == |tasks| && forall y :: y in r <==> y in tasks
    ensures Sorted(r, order)
    ensures forall i, j :: 0 <= i < j < |r| ==> Compare(r[i], r[j], order) <= 0
    ensures forall i, j :: 0 <= i < j < |r| && r[j].pinned ==> r[i].pinned
  {
    if |tasks| == 0 then []
    else
      var init := tasks[..|tasks| - 1];
      assert tasks == init + [tasks[|tasks| - 1]];
      Insert(tasks[|tasks| - 1], SortTasks(init, order), order)
  }

  /** A list's multiset is its initial part's plus its last element. */
  lemma SnocMultiset(s: seq<Task>)
    requires |s| > 0
    ensures multiset(s) == multiset(s[..|s| - 1]) + multiset{s[|s| - 1]}
  {
    assert s == s[..|s| - 1] + [s[|s| - 1]];
  }

  /** The display order is a permutation of the tasks. */
  lemma {:induction false} SortPermutes(tasks: seq<Task>, order: SortBy)
    ensures multiset(SortTasks(tasks, order)) == multiset(tasks)
    decreases |tasks|
  {
    if |tasks| > 0 {
      var init := tasks[..|tasks| - 1];
      var x := tasks[|tasks| - 1];
      SortUnfold(tasks, order);
      SortPermutes(init, order);
      InsertPermutes(x, SortTasks(init, order), order);
      SnocMultiset(tasks);
    }
  }

  /** The tasks of rank `k`, in their original order. */
  function OfRank(s: seq<Task>, k: nat, order: SortBy): seq<Task> {
    if |s| == 0 then [] else (if Rank(s[0], order) == k then [s[0]] else []) + OfRank(s[1..], k, order)
  }

  lemma {:induction false} OfRankAppend(a: seq<Task>, b: seq<Task>, k: nat, order: SortBy)
    ensures OfRank(a + b, k, order) == OfRank(a, k, order) + OfRank(b, k, order)
  {
    if |a| > 0 {
      assert a + b == [a[0]] + (a[1..] + b) && a == [a[0]] + a[1..];
      OfRankCons(a[0], a[1..] + b, k, order);
      OfRankCons(a[0], a[1..], k, order);
      OfRankAppend(a[1..], b, k, order);
    } else {
      assert a + b == b;
    }
  }

  lemma {:induction false} OfRankAbove(s: seq<Task>, k: nat, order: SortBy)
    requires forall i :: 0 <= i < |s| ==> Rank(s[i], order) > k
    ensures OfRank(s, k, order) == []
  {
    if |s| > 0 {
      OfRankAbove(s[1..], k, order);
    }
  }

  /** `OfRank` of a list with a known first element. */
  lemma OfRankCons(h: Task, rest: seq<Task>, k: nat, order: SortBy)
    ensures OfRank([h] + rest, k, order) == (if Rank(h, order) == k then [h] else []) + OfRank(rest, k, order)
  {
    assert ([h] + rest)[1..] == rest;
  }

  lemma SortedTail(s: seq<Task>, order: SortBy)
    requires |s| > 0 && Sorted(s, order)
    ensures Sorted(s[1..], order)
  {
  }

  lemma InsertAfterFirst(x: Task, s: seq<Task>, order: SortBy)
    requires |s| > 0 && Rank(x, order) >= Rank(s[0], order)
    ensures Insert(x, s, order) == [s[0]] + Insert(x, s[1..], order)
  {
  }

  /** `x` goes in front of a list whose ranks all exceed its own. */
  lemma OfRankInsertFront(x: Task, s: seq<Task>, k: nat, order: SortBy)
    requires Sorted(s, order) && |s| > 0 && Rank(x, order) < Rank(s[0], order)
    ensures OfRank(Insert(x, s, order), k, order) == OfRank(s, k, order) + (if Rank(x, order) == k then [x] else [])
  {
    OfRankCons(x, s, k, order);
    if Rank(x, order) == k {
      OfRankAbove(s, k, order);
    }
  }

  /** `x` goes past the first element, whose share of rank `k` comes first. */
  lemma OfRankInsertPast(x: Task, s: seq<Task>, k: nat, order: SortBy)
    requires |s| > 0 && Rank(x, order) >= Rank(s[0], order)
    requires OfRank(Insert(x, s[1..], order), k, order) == OfRank(s[1..], k, order) + (if Rank(x, order) == k then [x] else [])
    ensures OfRank(Insert(x, s, order), k, order) == OfRank(s, k, order) + (if Rank(x, order) == k then [x] else [])
  {
    InsertAfterFirst(x, s, order);
    OfRankCons(s[0], Insert(x, s[1..], order), k, order);
    OfRankCons(s[0], s[1..], k, order);
    assert s == [s[0]] + s[1..];
  }

  lemma {:induction false} OfRankInsert(x: Task, s: seq<Task>, k: nat, order: SortBy)
    requires Sorted(s, order)
    ensures OfRank(Insert(x, s, order), k, order) == OfRank(s, k, order) + (if Rank(x, order) == k then [x] else [])
  {
    if |s| == 0 {
      OfRankCons(x, [], k, order);
    } else if Rank(x, order) < Rank(s[0], order) {
      OfRankInsertFront(x, s, k, order);
    } else {
      SortedTail(s, order);
      OfRankInsert(x, s[1..], k, order);
      OfRankInsertPast(x, s, k, order);
    }
  }

  /** The sort inserts the last task into the sorted rest. */
  lemma SortUnfold(tasks: seq<Task>, order: SortBy)
    requires |tasks| > 0
    ensures SortTasks(tasks, order) == Insert(tasks[|tasks| - 1], SortTasks(tasks[..|tasks| - 1], order), order)
  {
  }

  /** `OfRank` of a list with a known last element. */
  lemma OfRankSnoc(init: seq<Task>, x: Task, k: nat, order: SortBy)
    ensures OfRank(init + [x], k, order) == OfRank(init, k, order) + (if Rank(x, order) == k then [x] else [])
  {
    OfRankAppend(init, [x], k, order);
    OfRankCons(x, [], k, order);
    assert [x] + [] == [x];
  }

  /** Stability: within each rank, the display order is the original order;
      the comparator's ties (equal rank) are never reordered. */
  lemma {:induction false} SortIsStable(tasks: seq<Task>, k: nat, order: SortBy)
    ensures OfRank(SortTasks(tasks, order), k, order) == OfRank(tasks, k, order)
    decreases |tasks|
  {
    if |tasks| > 0 {
      var init := tasks[..|tasks| - 1];
      var x := tasks[|tasks| - 1];
      SortUnfold(tasks, order);
      SortIsStable(init, k, order);
      OfRankInsert(x, SortTasks(init, order), k, order);
      assert tasks == init + [x];
      OfRankSnoc(init, x, k, order);
    }
  }
}
