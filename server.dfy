/** The running application: the Task and User tables and the session of
    the current client, changed in place by the route handlers. Each method
    is proved to produce the outcome its function in Views prescribes. */
module Server {

  import opened Wrappers
  import opened Store
  import opened Queries
  import opened Views

  class App {
    var tasks: map<nat, Task>
    var users: map<nat, User>
    var session: Session
    /** The role column's default for a newly registered user. */
    const defaultRole: string

    function Snapshot(): State
      reads this
    {
      State(tasks, users, session)
    }

    ghost predicate Valid()
      reads this
    {
      WellFormed(Snapshot())
    }

    /** An empty database and a client that has not logged in. */
    constructor (defaultRole: string)
      ensures Valid() && this.defaultRole == defaultRole
      ensures tasks == map[] && users == map[] && session == Anonymous
    {
      this.defaultRole := defaultRole;
      tasks := map[];
      users := map[];
      session := Anonymous;
    }

    method Logout() returns (resp: Response)
      requires Valid()
      modifies this`session
      ensures Valid()
      ensures Outcome(Snapshot(), resp) == Views.Logout(old(Snapshot()))
    {
      if !session.LoggedIn? {
        resp := Redirect(LoginEndpoint, NeedLogin);
        return;
      }
      session := Anonymous;
      resp := Redirect(LoginEndpoint, Goodbye);
    }

    method Login(isPost: bool, formValid: bool, name: string, password: string) returns (resp: Response)
      requires Valid()
      modifies this`session
      ensures Valid()
      ensures Outcome(Snapshot(), resp) == Views.Login(old(Snapshot()), isPost, formValid, name, password)
    {
      ghost var st := Snapshot();
      resp := Render(LoginHtml, None, None, None);
      if isPost {
        if ValidateOnSubmitAttribute(formValid) {
          var user := FindByName(users, name);
          if user.Some? && user.value.password == password {
            session := LoggedIn(user.value.id, user.value.role);
            resp := Redirect(TasksEndpoint, Welcome);
          } else {
            resp := Render(LoginHtml, None, Some(InvalidCredentials), None);
          }
        } else {
          resp := Render(LoginHtml, None, Some(BothFieldsRequired), None);
        }
      }
      LoginKeepsWellFormed(st, isPost, formValid, name, password);
    }

    method Tasks() returns (resp: Response)
      requires Valid()
      ensures Outcome(Snapshot(), resp) == Views.Tasks(Snapshot())
    {
      if !session.LoggedIn? {
        resp := Redirect(LoginEndpoint, NeedLogin);
        return;
      }
      resp := Render(TasksHtml, None, None, Some(Listing(OpenTasks(tasks), ClosedTasks(tasks))));
    }

    method NewTask(isPost: bool, formValid: bool, name: string, dueDate: int, priority: int, postedDate: int)
      returns (resp: Response)
      requires Valid()
      modifies this`tasks
      ensures Valid()
      ensures Outcome(Snapshot(), resp)
           == Views.NewTask(old(Snapshot()), isPost, formValid, name, dueDate, priority, postedDate)
    {
      if !session.LoggedIn? {
        resp := Redirect(LoginEndpoint, NeedLogin);
        return;
      }
      if !isPost {
        resp := Render(TasksHtml, None, None, Some(Listing(OpenTasks(tasks), ClosedTasks(tasks))));
      } else if formValid {
        var id := NextKey(tasks.Keys);
        tasks := tasks[id := Task(id, name, dueDate, priority, postedDate, Open, session.userId)];
        resp := Redirect(TasksEndpoint, Posted);
      } else {
        resp := Render(TasksHtml, Some(AllFieldsRequired), None, None);
      }
      ghost var o := Views.NewTask(old(Snapshot()), isPost, formValid, name, dueDate, priority, postedDate);
      assert Snapshot() == o.state;
      assert WellFormed(o.state);
    }

    method Complete(taskId: nat) returns (resp: Response)
      requires Valid()
      modifies this`tasks
      ensures Valid()
      ensures Outcome(Snapshot(), resp) == Views.Complete(old(Snapshot()), taskId)
    {
      if !session.LoggedIn? {
        resp := Redirect(LoginEndpoint, NeedLogin);
        return;
      }
      if taskId !in tasks {
        resp := ServerError;
        return;
      }
      var task := tasks[taskId];
      if session.userId == task.userId || session.role == AdminRole {
        tasks := tasks[taskId := task.(status := Closed)];
        resp := Redirect(TasksEndpoint, Completed);
      } else {
        resp := Redirect(TasksEndpoint, NotYoursToUpdate);
      }
    }

    method DeleteEntry(taskId: nat) returns (resp: Response)
      requires Valid()
      modifies this`tasks
      ensures Valid()
      ensures Outcome(Snapshot(), resp) == Views.DeleteEntry(old(Snapshot()), taskId)
    {
      if !session.LoggedIn? {
        resp := Redirect(LoginEndpoint, NeedLogin);
        return;
      }
      if taskId !in tasks {
        resp := ServerError;
        return;
      }
      var task := tasks[taskId];
      if session.userId == task.userId || session.role == AdminRole {
        tasks := tasks - {taskId};
        resp := Redirect(TasksEndpoint, Deleted);
      } else {
        resp := Redirect(TasksEndpoint, NotYoursToDelete);
      }
    }

    method Register(isPost: bool, formValid: bool, name: string, email: string, password: string)
      returns (resp: Response)
      requires Valid()
      modifies this`users
      ensures Valid()
      ensures Outcome(Snapshot(), resp)
           == Views.Register(old(Snapshot()), isPost, formValid, name, email, password, defaultRole)
    {
      resp := Render(RegisterHtml, None, None, None);
      if isPost && formValid {
        if Taken(users, name, email) {
          resp := Render(RegisterHtml, None, Some(Conflict), None);
        } else {
          var id := NextKey(users.Keys);
          users := users[id := User(id, name, email, password, defaultRole)];
          resp := Redirect(LoginEndpoint, Registered);
        }
      }
      ghost var o := Views.Register(old(Snapshot()), isPost, formValid, name, email, password, defaultRole);
      assert Snapshot() == o.state;
      assert WellFormed(o.state);
    }
  }

  /** The test task's dates as day numbers, counted as Python's
      `date.toordinal` counts them: 02/05/2014 is due, 02/04/2014 the
      posting day. */
  const BankDueDay: int := 735269
  const BankPostedDay: int := 735268

  /** The test suite's first scenarios, restated on a fresh application:
      Michael registers, logs in and adds a task, which becomes task 1;
      completing task 1 then succeeds. */
  method AddAndCompleteScenario() returns (posted: Response, done: Response)
    ensures posted == Redirect(TasksEndpoint, Posted)
    ensures done == Redirect(TasksEndpoint, Completed)
  {
    var app := new App("user");
    var michael := User(1, "Michael", "michael@realpython", "python", "user");
    var r := app.Register(true, true, "Michael", "michael@realpython", "python");
    assert app.users == map[1 := michael];
    r := app.Login(true, true, "Michael", "python");
    assert michael in app.users.Values;
    assert app.session == LoggedIn(1, "user");
    posted := app.NewTask(true, true, "Go to the bank", BankDueDay, 1, BankPostedDay);
    assert 1 in app.tasks && app.tasks[1].userId == 1;
    done := app.Complete(1);
  }

  /** A logged-in user whose task form fails validation (the test leaves
      the due date empty) gets the tasks page with "All fields are
      required." flashed, and no task is added. */
  method AddTaskWithErrorScenario() returns (refused: Response)
    ensures refused == Render(TasksHtml, Some(AllFieldsRequired), None, None)
  {
    var app := new App("user");
    var michael := User(1, "Michael", "michael@realpython.com", "python", "user");
    var r := app.Register(true, true, "Michael", "michael@realpython.com", "python");
    assert app.users == map[1 := michael];
    r := app.Login(true, true, "Michael", "python");
    assert michael in app.users.Values;
    assert app.session == LoggedIn(1, "user");
    refused := app.NewTask(true, false, "Go to the bank", BankDueDay, 1, BankPostedDay);
  }

  /** The test suite's set-up for the ownership tests: Michael has
      registered, added task 1 and logged out. */
  method MichaelsTask() returns (app: App)
    ensures fresh(app) && app.Valid() && app.defaultRole == "user"
    ensures app.session == Anonymous
    ensures app.users == map[1 := User(1, "Michael", "michael@realpython", "python", "user")]
    ensures 1 in app.tasks && app.tasks[1].userId == 1
  {
    app := new App("user");
    var michael := User(1, "Michael", "michael@realpython", "python", "user");
    var r := app.Register(true, true, "Michael", "michael@realpython", "python");
    assert app.users == map[1 := michael];
    r := app.Login(true, true, "Michael", "python");
    assert michael in app.users.Values;
    assert app.session == LoggedIn(1, "user");
    r := app.NewTask(true, true, "Go to the bank", BankDueDay, 1, BankPostedDay);
    r := app.Logout();
  }

  /** An owner deletes their own task: Michael logs back in and deletes
      task 1, which he added. */
  method DeleteOwnTaskScenario() returns (deleted: Response)
    ensures deleted == Redirect(TasksEndpoint, Deleted)
  {
    var app := MichaelsTask();
    assert app.users[1] in app.users.Values;
    LoginSucceedsIff(app.Snapshot(), true, "Michael", "python");
    var r := app.Login(true, true, "Michael", "python");
    deleted := app.DeleteEntry(1);
  }

  /** Then Fletcher registers: a second user with the default role. */
  method FletcherRegistered() returns (app: App, f: nat)
    ensures fresh(app) && app.Valid() && app.session == Anonymous
    ensures f != 1 && f in app.users && app.users[f] == User(f, "Fletcher", "fletcher@realpython", "python101", "user")
    ensures forall u :: u in app.users.Values && u.name == "Fletcher" ==> u == app.users[f]
    ensures 1 in app.tasks && app.tasks[1].userId == 1
  {
    app := MichaelsTask();
    var michael := app.users[1];
    assert forall u :: u in app.users.Values ==> u == michael;
    var r := app.Register(true, true, "Fletcher", "fletcher@realpython", "python101");
    f :| f != 1 && app.users == map[1 := michael][f := User(f, "Fletcher", "fletcher@realpython", "python101", "user")];
  }

  /** And logs in, as a user other than task 1's owner. */
  method FletcherLoggedIn() returns (app: App)
    ensures fresh(app) && app.Valid()
    ensures app.session.LoggedIn? && app.session.userId != 1 && app.session.role == "user"
    ensures 1 in app.tasks && app.tasks[1].userId == 1
  {
    var f;
    app, f := FletcherRegistered();
    assert app.users[f] in app.users.Values;
    LoginSucceedsIff(app.Snapshot(), true, "Fletcher", "python101");
    var r := app.Login(true, true, "Fletcher", "python101");
  }

  /** A user who does not own task 1 and is not an admin can neither
      complete nor delete it, and is told why. */
  method OthersTaskScenario() returns (denied: Response, deniedDelete: Response)
    ensures denied == Redirect(TasksEndpoint, NotYoursToUpdate)
    ensures deniedDelete == Redirect(TasksEndpoint, NotYoursToDelete)
  {
    var app := FletcherLoggedIn();
    denied := app.Complete(1);
    deniedDelete := app.DeleteEntry(1);
  }

}
