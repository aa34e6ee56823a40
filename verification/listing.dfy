/** `get_all_tasks`: every task, ordered by creation time. The order of tasks
    created at the same instant is whatever the database returns; the model
    fixes one such order. */
module TaskListing {
  import opened Text
  import opened Store

  predicate SortedByCreation(ts: seq<Task>) {
    forall i, j :: 0 <= i < j < |ts| ==> ts[i].createdAt <= ts[j].createdAt
  }

  /** Inserts `t` before the first task created no earlier than it. */
  function InsertByCreation(t: Task, ts: seq<Task>): (r: seq<Task>)
    requires SortedByCreation(ts)
    ensures SortedByCreation(r)
    ensures multiset(r) == multiset(ts) + multiset{t}
    ensures forall x :: x in r <==> x == t || x in ts
  {
    if |ts| == 0 then [t]
    else if t.createdAt <= ts[0].createdAt then
      SortedCons(t, ts);
      [t] + ts
    else
      SortedTail(ts);
      var rest := InsertByCreation(t, ts[1..]);
      SortedCons(ts[0], rest);
      assert ts == [ts[0]] + ts[1..];
      [ts[0]] + rest
  }

  /** The tail of a sorted list is sorted and starts no earlier than its head. */
  lemma SortedTail(ts: seq<Task>)
    requires SortedByCreation(ts) && |ts| > 0
    ensures SortedByCreation(ts[1..])
    ensures forall x :: x in ts[1..] ==> ts[0].createdAt <= x.createdAt
  {
    forall x | x in ts[1..]
      ensures ts[0].createdAt <= x.createdAt
    {
      var j :| 0 <= j < |ts[1..]| && ts[1..][j] == x;
      assert x == ts[j + 1];
    }
  }

  /** A task created no later than every task of a sorted list may go first. */
  lemma SortedCons(h: Task, ts: seq<Task>)
    requires SortedByCreation(ts)
    requires forall x :: x in ts ==> h.createdAt <= x.createdAt
    ensures SortedByCreation([h] + ts)
  {
    var r := [h] + ts;
    forall i, j | 0 <= i < j < |r|
      ensures r[i].createdAt <= r[j].createdAt
    {
      assert r[j] == ts[j - 1];
      if i > 0 {
        assert r[i] == ts[i - 1];
      } else {
        assert ts[j - 1] in ts;
      }
    }
  }

  /** Insertion sort by creation time. */
  function SortByCreation(ts: seq<Task>): (r: seq<Task>)
    ensures SortedByCreation(r)
    ensures multiset(r) == multiset(ts)
  {
    if |ts| == 0 then []
    else
      assert ts == [ts[0]] + ts[1..];
      InsertByCreation(ts[0], SortByCreation(ts[1..]))
  }

  /** The tasks stored under `ids`, in that order. */
  function TasksAt(rows: map<int, Task>, ids: seq<int>): (ts: seq<Task>)
    requires forall i :: 0 <= i < |ids| ==> ids[i] in rows
    ensures |ts| == |ids| && forall i :: 0 <= i < |ids| ==> ts[i] == rows[ids[i]]
  {
    seq(|ids|, i requires 0 <= i < |ids| => rows[ids[i]])
  }

  /** Listing the tasks under every key lists every stored task and nothing else. */
  lemma TasksAtCover(rows: map<int, Task>, ids: seq<int>)
    requires forall i :: 0 <= i < |ids| ==> ids[i] in rows
    requires forall k :: k in rows ==> k in ids
    ensures forall t :: t in TasksAt(rows, ids) <==> exists k :: k in rows && rows[k] == t
  {
    var ts := TasksAt(rows, ids);
    forall t | t in ts
      ensures exists k :: k in rows && rows[k] == t
    {
      var i :| 0 <= i < |ts| && ts[i] == t;
      var k := ids[i];
      assert k in rows && rows[k] == t;
    }
    forall k | k in rows
      ensures rows[k] in ts
    {
      var i := IndexIn(ids, k);
      assert ts[i] == rows[k];
    }
  }

  /** The stored tasks in the order of some enumeration of their keys. */
  ghost function StoredTasks(db: Db): (ts: seq<Task>)
    ensures |ts| == |db.tasks.rows.Keys|
    ensures forall t :: t in ts <==> exists k :: k in db.tasks.rows && db.tasks.rows[k] == t
  {
    var ids := Enumerate(db.tasks.rows.Keys);
    TasksAtCover(db.tasks.rows, ids);
    TasksAt(db.tasks.rows, ids)
  }

  /** `get_all_tasks`: each stored task, ordered by ascending creation time. */
  ghost function GetAllTasks(db: Db): (r: seq<Task>)
    ensures SortedByCreation(r)
    ensures forall t :: t in r <==> exists k :: k in db.tasks.rows && db.tasks.rows[k] == t
    ensures |r| == |db.tasks.rows.Keys|
  {
    var ts := StoredTasks(db);
    var r := SortByCreation(ts);
    assert forall t :: t in r <==> t in multiset(r);
    assert forall t :: t in ts <==> t in multiset(ts);
    assert |r| == |multiset(r)| == |multiset(ts)| == |ts|;
    r
  }

  /** In a consistent store every task is listed exactly once. */
  lemma ListedOnce(db: Db)
    requires Valid(db)
    ensures Distinct(GetAllTasks(db))
  {
    var ids := Enumerate(db.tasks.rows.Keys);
    var ts := StoredTasks(db);
    assert ts == TasksAt(db.tasks.rows, ids);
    assert Distinct(ts) by {
      forall i, j | 0 <= i < j < |ts|
        ensures ts[i] != ts[j]
      {
        assert ts[i].id == ids[i] && ts[j].id == ids[j];
      }
    }
    PermutationKeepsDistinct(ts, GetAllTasks(db));
  }

  /** How often `x` occurs in a sequence without repetitions. */
  lemma {:induction false} DistinctCount<T>(xs: seq<T>, x: T)
    requires Distinct(xs)
    ensures multiset(xs)[x] <= 1
    ensures x in xs ==> multiset(xs)[x] == 1
  {
    if |xs| > 0 {
      assert xs == [xs[0]] + xs[1..];
      assert Distinct(xs[1..]) by {
        forall i, j | 0 <= i < j < |xs[1..]|
          ensures xs[1..][i] != xs[1..][j]
        {
          assert xs[1..][i] == xs[i + 1] && xs[1..][j] == xs[j + 1];
        }
      }
      DistinctCount(xs[1..], x);
      if x == xs[0] {
        assert x !in xs[1..] by {
          forall i | 0 <= i < |xs[1..]|
            ensures xs[1..][i] != x
          {
            assert xs[1..][i] == xs[i + 1];
          }
        }
      }
    }
  }

  /** Reordering a sequence without repetitions leaves it without repetitions. */
  lemma PermutationKeepsDistinct<T>(xs: seq<T>, ys: seq<T>)
    requires Distinct(xs) && multiset(xs) == multiset(ys)
    ensures Distinct(ys)
  {
    forall i, j | 0 <= i < j < |ys|
      ensures ys[i] != ys[j]
    {
      if ys[i] == ys[j] {
        var x := ys[i];
        assert ys == ys[..i] + [x] + ys[i + 1..j] + [x] + ys[j + 1..];
        assert multiset(ys)[x] >= 2;
        DistinctCount(xs, x);
        assert false;
      }
    }
  }
}
