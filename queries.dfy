/** The two task lists of the tasks page: `open_tasks()` and
    `closed_tasks()`, each a filter on status ordered by due date. */
module Queries {

  import opened Store

  predicate SortedByDue(s: seq<Task>) {
    forall i, j :: 0 <= i < j < |s| ==> s[i].dueDate <= s[j].dueDate
  }

  predicate Distinct(s: seq<Task>) {
    forall i, j :: 0 <= i < j < |s| ==> s[i] != s[j]
  }

  /** The rows under `keys`, in that order, whose status is `st`. */
  function Select(tasks: map<nat, Task>, keys: seq<nat>, st: Status): (r: seq<Task>)
    requires forall i :: 0 <= i < |keys| ==> keys[i] in tasks
    ensures forall t :: t in r ==> t in tasks.Values && t.status == st
    ensures forall i :: 0 <= i < |keys| && tasks[keys[i]].status == st ==> tasks[keys[i]] in r
  {
    if keys == [] then []
    else
      var rest := Select(tasks, keys[1..], st);
      assert forall i :: 1 <= i < |keys| ==> keys[i] == keys[1..][i - 1];
      if tasks[keys[0]].status == st then [tasks[keys[0]]] + rest else rest
  }

  /** In a keyed table, selecting under distinct ascending keys lists each
      row once, and only rows under those keys. */
  lemma {:induction false} SelectDistinct(tasks: map<nat, Task>, keys: seq<nat>, st: Status)
    requires forall i :: 0 <= i < |keys| ==> keys[i] in tasks
    requires TasksKeyed(tasks)
    requires forall i, j :: 0 <= i < j < |keys| ==> keys[i] < keys[j]
    ensures forall t :: t in Select(tasks, keys, st) ==> t.taskId in keys
    ensures Distinct(Select(tasks, keys, st))
  {
    if keys != [] {
      var rest := Select(tasks, keys[1..], st);
      SelectDistinct(tasks, keys[1..], st);
      assert forall k :: k in keys[1..] ==> keys[0] < k;
      assert tasks[keys[0]] !in rest;
      DistinctCons(tasks[keys[0]], rest);
    }
  }

  /** A list with `x` in front holds no row twice exactly when the rest
      does not and `x` is not in it. */
  lemma DistinctCons(x: Task, s: seq<Task>)
    ensures Distinct([x] + s) <==> x !in s && Distinct(s)
  {
    var xs := [x] + s;
    if Distinct(xs) {
      forall i | 0 <= i < |s| ensures s[i] != x {
        assert xs[0] != xs[i + 1];
      }
      forall i, j | 0 <= i < j < |s| ensures s[i] != s[j] {
        assert xs[i + 1] != xs[j + 1];
      }
    }
    if x !in s && Distinct(s) {
      forall i, j | 0 <= i < j < |xs| ensures xs[i] != xs[j] {
        assert xs[j] == s[j - 1];
        if i > 0 {
          assert xs[i] == s[i - 1];
        }
      }
    }
  }

  /** A list with `x` in front is sorted by due date when the rest is and
      nothing in it is due before `x`. */
  lemma SortedCons(x: Task, s: seq<Task>)
    requires SortedByDue(s)
    requires forall y :: y in s ==> x.dueDate <= y.dueDate
    ensures SortedByDue([x] + s)
  {
    var xs := [x] + s;
    forall i, j | 0 <= i < j < |xs| ensures xs[i].dueDate <= xs[j].dueDate {
      assert xs[j] == s[j - 1];
      if i > 0 {
        assert xs[i] == s[i - 1];
      }
    }
  }

  /** The rest of a sorted list is sorted and due no earlier than its head. */
  lemma SortedTail(s: seq<Task>)
    requires SortedByDue(s) && s != []
    ensures SortedByDue(s[1..])
    ensures forall y :: y in s[1..] ==> s[0].dueDate <= y.dueDate
  {
    forall y | y in s[1..] ensures s[0].dueDate <= y.dueDate {
      var i :| 0 <= i < |s[1..]| && s[1..][i] == y;
      assert s[i + 1] == y;
    }
  }

  /** Inserts `t` into a list sorted by due date, before the first row
      that is due no earlier. */
  function Insert(t: Task, s: seq<Task>): (r: seq<Task>)
    requires SortedByDue(s)
    ensures SortedByDue(r)
    ensures multiset(r) == multiset(s) + multiset{t}
  {
    if s == [] then [t]
    else if t.dueDate <= s[0].dueDate then
      SortedCons(t, s);
      [t] + s
    else
      SortedTail(s);
      var rest := Insert(t, s[1..]);
      InsertBound(t, s, rest);
      SortedCons(s[0], rest);
      assert s == [s[0]] + s[1..];
      [s[0]] + rest
  }

  /** What is inserted into the rest of a sorted list is due no earlier than
      its head, when the inserted row is due after the head. */
  lemma InsertBound(t: Task, s: seq<Task>, rest: seq<Task>)
    requires s != [] && s[0].dueDate < t.dueDate
    requires forall y :: y in s[1..] ==> s[0].dueDate <= y.dueDate
    requires multiset(rest) == multiset(s[1..]) + multiset{t}
    ensures forall y :: y in rest ==> s[0].dueDate <= y.dueDate
  {
    forall y | y in rest ensures s[0].dueDate <= y.dueDate {
      assert y in multiset(rest);
    }
  }

  /** Inserting a row that is not yet listed into a list without repeats
      gives a list without repeats. */
  lemma {:induction false} InsertDistinct(t: Task, s: seq<Task>)
    requires SortedByDue(s) && Distinct(s) && t !in s
    ensures Distinct(Insert(t, s))
  {
    if s == [] {
    } else if t.dueDate <= s[0].dueDate {
      DistinctCons(t, s);
    } else {
      assert s == [s[0]] + s[1..];
      DistinctCons(s[0], s[1..]);
      InsertDistinct(t, s[1..]);
      var rest := Insert(t, s[1..]);
      assert s[0] !in rest by {
        assert s[0] !in multiset(s[1..]) + multiset{t};
      }
      DistinctCons(s[0], rest);
    }
  }

  /** `order_by(Task.due_date.asc())`: the rows reordered by due date
      (earlier rows stay first among rows due the same day). */
  function SortByDue(s: seq<Task>): (r: seq<Task>)
    ensures SortedByDue(r)
    ensures multiset(r) == multiset(s)
  {
    if s == [] then []
    else
      assert s == [s[0]] + s[1..];
      Insert(s[0], SortByDue(s[1..]))
  }

  /** Sorting a list without repeats gives a list without repeats. */
  lemma {:induction false} SortDistinct(s: seq<Task>)
    requires Distinct(s)
    ensures Distinct(SortByDue(s))
  {
    if s != [] {
      assert s == [s[0]] + s[1..];
      DistinctCons(s[0], s[1..]);
      SortDistinct(s[1..]);
      assert s[0] !in SortByDue(s[1..]) by {
        assert s[0] !in multiset(s[1..]);
      }
      InsertDistinct(s[0], SortByDue(s[1..]));
    }
  }

  /** Selecting over all keys of the table misses no row with the status. */
  lemma SelectCoversTable(tasks: map<nat, Task>, st: Status)
    ensures forall t :: t in tasks.Values && t.status == st ==> t in Select(tasks, SortedKeys(tasks.Keys), st)
  {
    var keys := SortedKeys(tasks.Keys);
    forall t | t in tasks.Values && t.status == st ensures t in Select(tasks, keys, st) {
      var k :| k in tasks && tasks[k] == t;
      var i :| 0 <= i < |keys| && keys[i] == k;
    }
  }

  /** Sorting lists the same rows. */
  lemma SortKeepsRows(s: seq<Task>)
    ensures forall t :: t in SortByDue(s) <==> t in s
  {
    var r := SortByDue(s);
    forall t ensures t in r <==> t in s {
      assert t in r <==> t in multiset(r);
    }
  }

  /** `query(Task).filter_by(status=st).order_by(Task.due_date.asc())`:
      every row with status `st`, each once, ordered by due date. */
  function TasksWithStatus(tasks: map<nat, Task>, st: Status): (r: seq<Task>)
    ensures forall t :: t in r <==> t in tasks.Values && t.status == st
    ensures SortedByDue(r)
    ensures TasksKeyed(tasks) ==> Distinct(r)
  {
    var selected := Select(tasks, SortedKeys(tasks.Keys), st);
    SelectCoversTable(tasks, st);
    SortKeepsRows(selected);
    assert TasksKeyed(tasks) ==> Distinct(SortByDue(selected)) by {
      if TasksKeyed(tasks) {
        SelectDistinct(tasks, SortedKeys(tasks.Keys), st);
        SortDistinct(selected);
      }
    }
    SortByDue(selected)
  }

  /** `open_tasks()`: the rows with status "1". */
  function OpenTasks(tasks: map<nat, Task>): (r: seq<Task>)
    ensures forall t :: t in r <==> t in tasks.Values && t.status == Open
    ensures SortedByDue(r)
    ensures TasksKeyed(tasks) ==> Distinct(r)
  {
    TasksWithStatus(tasks, Open)
  }

  /** `closed_tasks()`: the rows with status "0". */
  function ClosedTasks(tasks: map<nat, Task>): (r: seq<Task>)
    ensures forall t :: t in r <==> t in tasks.Values && t.status == Closed
    ensures SortedByDue(r)
    ensures TasksKeyed(tasks) ==> Distinct(r)
  {
    TasksWithStatus(tasks, Closed)
  }

  /** The keys of the rows with status `st`. */
  function KeysWithStatus(tasks: map<nat, Task>, st: Status): set<nat> {
    set k | k in tasks && tasks[k].status == st
  }

  /** Status splits the keys of the table in two. */
  lemma StatusSplitsKeys(tasks: map<nat, Task>)
    ensures |KeysWithStatus(tasks, Open)| + |KeysWithStatus(tasks, Closed)| == |tasks|
  {
    var o, c := KeysWithStatus(tasks, Open), KeysWithStatus(tasks, Closed);
    forall k | k in tasks.Keys ensures k in o + c {
      if tasks[k].status == Open {
        assert k in o;
      } else {
        assert k in c;
      }
    }
    assert o + c == tasks.Keys;
    assert o * c == {};
  }

  /** In a keyed table each list is as long as the number of rows with its
      status. */
  lemma ListLength(tasks: map<nat, Task>, st: Status)
    requires TasksKeyed(tasks)
    ensures |TasksWithStatus(tasks, st)| == |KeysWithStatus(tasks, st)|
  {
    var r := TasksWithStatus(tasks, st);
    var keys := KeysWithStatus(tasks, st);
    forall k ensures k in keys <==> k in tasks && tasks[k] in r {
      if k in tasks {
        assert tasks[k] in tasks.Values;
      }
    }
    DistinctIds(tasks, r, keys);
  }

  /** Every row of the table is listed exactly once over the two lists:
      the lists are disjoint, hold no row twice, and together have as many
      entries as the table has rows. */
  lemma {:induction false} ListsPartitionTable(tasks: map<nat, Task>)
    requires TasksKeyed(tasks)
    ensures forall t :: t in tasks.Values ==> (t in OpenTasks(tasks) <==> t !in ClosedTasks(tasks))
    ensures |OpenTasks(tasks)| + |ClosedTasks(tasks)| == |tasks|
  {
    ListLength(tasks, Open);
    ListLength(tasks, Closed);
    StatusSplitsKeys(tasks);
  }

  /** A list of distinct rows of a keyed table is as long as the set of keys
      of the rows it lists. */
  lemma {:induction false} DistinctIds(tasks: map<nat, Task>, s: seq<Task>, keys: set<nat>)
    requires TasksKeyed(tasks) && Distinct(s)
    requires forall x :: x in s ==> x in tasks.Values
    requires forall k :: k in keys <==> k in tasks && tasks[k] in s
    ensures |s| == |keys|
    decreases |s|
  {
    if s == [] {
      assert keys == {};
    } else {
      var t := s[|s| - 1];
      var rest := s[..|s| - 1];
      assert forall x :: x in s <==> x == t || x in rest;
      assert t !in rest;
      assert forall i, j :: 0 <= i < j < |rest| ==> rest[i] == s[i] && rest[j] == s[j];
      assert t in tasks.Values ==> t.taskId in keys;
      DistinctIds(tasks, rest, keys - {t.taskId});
    }
  }

}
