/** The two tables of the task list application (Task and User), the
    request's session, and the key handling the database does for them. */
module Store {

  import opened Wrappers

  /** Task.status: the column holds "1" for an open task and "0" for a
      closed one, and nothing else is ever written to it. */
  datatype Status = Open | Closed

  /** A row of the Task table; dueDate is a day number, postedDate the
      creation timestamp, userId the owner's User.id. */
  datatype Task = Task(
    taskId: nat,
    name: string,
    dueDate: int,
    priority: int,
    postedDate: int,
    status: Status,
    userId: nat)

  /** A row of the User table; the password is stored as given. */
  datatype User = User(id: nat, name: string, email: string, password: string, role: string)

  /** The session keys logged_in, user_id and role, which the handlers
      always set and remove together. */
  datatype Session = Anonymous | LoggedIn(userId: nat, role: string)

  const AdminRole: string := "admin"

  /** Each row is stored under its own primary key. */
  predicate TasksKeyed(tasks: map<nat, Task>) {
    forall k :: k in tasks ==> tasks[k].taskId == k
  }

  predicate UsersKeyed(users: map<nat, User>) {
    forall k :: k in users ==> users[k].id == k
  }

  /** The unique constraints on User.name and User.email. */
  predicate UniqueNames(users: map<nat, User>) {
    forall i, j :: i in users && j in users && users[i].name == users[j].name ==> i == j
  }

  predicate UniqueEmails(users: map<nat, User>) {
    forall i, j :: i in users && j in users && users[i].email == users[j].email ==> i == j
  }

  predicate IsLeast(m: nat, s: set<nat>) {
    m in s && forall j :: j in s ==> m <= j
  }

  /** Every non-empty finite set of keys has a least element. */
  lemma {:induction false} LeastExists(s: set<nat>)
    requires s != {}
    ensures exists m :: IsLeast(m, s)
    decreases |s|
  {
    var x :| x in s;
    if s != {x} {
      LeastExists(s - {x});
      var m :| IsLeast(m, s - {x});
      assert forall j :: j in s ==> j == x || j in s - {x};
      if x < m {
        assert IsLeast(x, s);
      } else {
        assert IsLeast(m, s);
      }
    } else {
      assert IsLeast(x, s);
    }
  }

  /** The keys of a table in ascending order: the primary-key order in
      which the database hands out rows. */
  function SortedKeys(s: set<nat>): (r: seq<nat>)
    ensures |r| == |s|
    ensures forall k :: k in r <==> k in s
    ensures forall i, j :: 0 <= i < j < |r| ==> r[i] < r[j]
    decreases |s|
  {
    if s == {} then []
    else
      LeastExists(s);
      var m :| IsLeast(m, s);
      var rest := SortedKeys(s - {m});
      PrependLeast(m, s, rest);
      [m] + rest
  }

  /** Putting the least key in front of the others in ascending order
      gives all the keys in ascending order. */
  lemma PrependLeast(m: nat, s: set<nat>, rest: seq<nat>)
    requires IsLeast(m, s)
    requires |rest| == |s - {m}|
    requires forall k :: k in rest <==> k in s - {m}
    requires forall i, j :: 0 <= i < j < |rest| ==> rest[i] < rest[j]
    ensures |[m] + rest| == |s|
    ensures forall k :: k in [m] + rest <==> k in s
    ensures forall i, j :: 0 <= i < j < |[m] + rest| ==> ([m] + rest)[i] < ([m] + rest)[j]
  {
    var r := [m] + rest;
    forall i, j | 0 <= i < j < |r| ensures r[i] < r[j] {
      if i == 0 {
        assert r[j] == rest[j - 1] && rest[j - 1] in s - {m};
      } else {
        assert r[i] == rest[i - 1] && r[j] == rest[j - 1];
      }
    }
  }

  /** The key the database gives the next inserted row: one more than the
      largest key in use, or 1 in an empty table. */
  function NextKey(s: set<nat>): (k: nat)
    ensures k !in s && 1 <= k
    ensures forall j :: j in s ==> j < k
    ensures s == {} ==> k == 1
  {
    var ks := SortedKeys(s);
    if |ks| == 0 then 1
    else
      var last := ks[|ks| - 1];
      assert forall j :: j in s ==> j <= last by {
        forall j | j in s ensures j <= last {
          var i :| 0 <= i < |ks| && ks[i] == j;
          assert i == |ks| - 1 || ks[i] < last;
        }
      }
      last + 1
  }

  /** `User.query.filter_by(name=name).first()` among the rows with the
      given keys, taken in ascending key order. */
  function FirstNamed(users: map<nat, User>, keys: set<nat>, name: string): (r: Option<User>)
    requires keys <= users.Keys
    ensures r.Some? ==> r.value in users.Values && r.value.name == name
    ensures r.None? <==> forall k :: k in keys ==> users[k].name != name
    decreases |keys|
  {
    if keys == {} then None
    else
      LeastExists(keys);
      var m :| IsLeast(m, keys);
      if users[m].name == name then Some(users[m])
      else FirstNamed(users, keys - {m}, name)
  }

  /** The user with the given name, if there is one. */
  function FindByName(users: map<nat, User>, name: string): (r: Option<User>)
    ensures r.Some? ==> r.value in users.Values && r.value.name == name
    ensures r.None? <==> forall u :: u in users.Values ==> u.name != name
  {
    FirstNamed(users, users.Keys, name)
  }

}
