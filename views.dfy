/** The route handlers of the task list application, each a function from
    the state a request sees (both tables and the session) to the new state
    and the response. A handler that the source decorates with
    `login_required` is the undecorated handler passed to LoginRequired. */
module Views {

  import opened Wrappers
  import opened Store
  import opened Queries

  datatype State = State(tasks: map<nat, Task>, users: map<nat, User>, session: Session)

  /** The `url_for` targets the handlers redirect to. */
  datatype Endpoint = LoginEndpoint | TasksEndpoint

  datatype Template = LoginHtml | TasksHtml | RegisterHtml

  /** The `open_tasks` and `closed_tasks` arguments of the tasks page. */
  datatype Listing = Listing(open: seq<Task>, closed: seq<Task>)

  /** A handler's answer: a redirect with the message it flashed; a rendered
      template with the message flashed (if any), the error shown (if any)
      and the task lists (when passed); or an exception escaping the
      handler, which the framework answers with an internal server error. */
  datatype Response =
    | Redirect(to: Endpoint, message: string)
    | Render(template: Template, flashed: Option<string>, error: Option<string>, listing: Option<Listing>)
    | ServerError

  datatype Outcome = Outcome(state: State, response: Response)

  const NeedLogin: string := "You need to login first."
  const Goodbye: string := "Goodbye"
  const Welcome: string := "Welcome"
  const InvalidCredentials: string := "Invalid username or password"
  const BothFieldsRequired: string := "Both fields are required"
  const Posted: string := "New entry was succesfully posted. Thanks."
  const AllFieldsRequired: string := "All fields are required."
  const Completed: string := "The task is complete. Nice."
  const NotYoursToUpdate: string := "You can only update tasks that belong to you."
  const Deleted: string := "The task was deleted. Why not add a new one?"
  const NotYoursToDelete: string := "You can only delete tasks that belong to you."
  const Registered: string := "Thanks for registering. Please login."
  const Conflict: string := "That username and/or email already exist."

  /** What the database and the handlers keep true between requests: rows
      under their own keys, unique user names and emails, every task owned
      by an existing user, and a session naming an existing user with that
      user's role. */
  predicate WellFormed(st: State) {
    && TasksKeyed(st.tasks)
    && UsersKeyed(st.users)
    && UniqueNames(st.users)
    && UniqueEmails(st.users)
    && (forall k :: k in st.tasks ==> st.tasks[k].userId in st.users)
    && (st.session.LoggedIn? ==>
          st.session.userId in st.users && st.users[st.session.userId].role == st.session.role)
  }

  /** The rule of `complete` and `delete_entry`: the session user owns the
      task or has the admin role. */
  predicate MayChange(session: Session, task: Task) {
    session.LoggedIn? && (session.userId == task.userId || session.role == AdminRole)
  }

  function Unchanged(st: State, answer: Response): Outcome {
    Outcome(st, answer)
  }

  /** `login_required`: runs the handler only when the session has
      `logged_in`; otherwise nothing changes and the client is sent to the
      login page with a message. */
  function LoginRequired(st: State, handler: State -> Outcome): (o: Outcome)
    ensures st.session.LoggedIn? ==> o == handler(st)
    ensures !st.session.LoggedIn? ==> o.state == st && o.response == Redirect(LoginEndpoint, NeedLogin)
  {
    if st.session.LoggedIn? then handler(st)
    else Unchanged(st, Redirect(LoginEndpoint, NeedLogin))
  }

  // ---------------------------------------------------------------- logout

  function LogoutHandler(st: State): Outcome {
    Outcome(st.(session := Anonymous), Redirect(LoginEndpoint, Goodbye))
  }

  /** `logout`: removes the three session keys and nothing else. */
  function Logout(st: State): (o: Outcome)
    ensures o.state.tasks == st.tasks && o.state.users == st.users
    ensures o.state.session == Anonymous
    ensures st.session.LoggedIn? ==> o.response == Redirect(LoginEndpoint, Goodbye)
    ensures !st.session.LoggedIn? ==> o.response == Redirect(LoginEndpoint, NeedLogin)
    ensures WellFormed(st) ==> WellFormed(o.state)
  {
    LoginRequired(st, LogoutHandler)
  }

  // ----------------------------------------------------------------- login

  /** The truth value of `form.validate_on_submit` written without a call:
      a bound method object, which Python takes as true whatever the call
      would have returned. */
  function ValidateOnSubmitAttribute(callResult: bool): (truthy: bool)
  {
    true
  }

  /** `login`: on a POST, looks the user up by name and compares the stored
      password with the given one as plain strings. */
  function Login(st: State, isPost: bool, formValid: bool, name: string, password: string): (o: Outcome)
    ensures o.state.tasks == st.tasks && o.state.users == st.users
    ensures o.state == st || o.response == Redirect(TasksEndpoint, Welcome)
    ensures !isPost ==> o == Outcome(st, Render(LoginHtml, None, None, None))
    ensures o.response != Render(LoginHtml, None, Some(BothFieldsRequired), None)
  {
    if !isPost then Unchanged(st, Render(LoginHtml, None, None, None))
    else if ValidateOnSubmitAttribute(formValid) then
      var user := FindByName(st.users, name);
      if user.Some? && user.value.password == password then
        Outcome(st.(session := LoggedIn(user.value.id, user.value.role)), Redirect(TasksEndpoint, Welcome))
      else
        Unchanged(st, Render(LoginHtml, None, Some(InvalidCredentials), None))
    else
      Unchanged(st, Render(LoginHtml, None, Some(BothFieldsRequired), None))
  }

  /** A POST to the login page logs in exactly when some user has that name
      and that password, and then as that user with that user's role;
      otherwise the session stays as it was and the page shows the error. */
  lemma LoginSucceedsIff(st: State, formValid: bool, name: string, password: string)
    requires WellFormed(st)
    ensures var o := Login(st, true, formValid, name, password);
      && ((exists u :: u in st.users.Values && u.name == name && u.password == password)
          <==> o.response == Redirect(TasksEndpoint, Welcome))
      && (forall u :: u in st.users.Values && u.name == name && u.password == password ==>
            o.state.session == LoggedIn(u.id, u.role))
      && ((forall u :: u in st.users.Values ==> u.name != name || u.password != password) ==>
            o == Outcome(st, Render(LoginHtml, None, Some(InvalidCredentials), None)))
  {
    var user := FindByName(st.users, name);
    forall u | u in st.users.Values && u.name == name
      ensures user == Some(u)
    {
      var i :| i in st.users && st.users[i] == u;
      var j :| j in st.users && st.users[j] == user.value;
      assert i == j;
    }
  }

  /** Logging in keeps the database consistent and names an existing user
      with that user's role in the session. */
  lemma LoginKeepsWellFormed(st: State, isPost: bool, formValid: bool, name: string, password: string)
    requires WellFormed(st)
    ensures WellFormed(Login(st, isPost, formValid, name, password).state)
  {
  }

  /** The form's verdict never matters: "Both fields are required" is
      unreachable. */
  lemma LoginIgnoresFormValidation(st: State, isPost: bool, name: string, password: string)
    ensures Login(st, isPost, true, name, password) == Login(st, isPost, false, name, password)
    ensures Login(st, isPost, false, name, password).response.Render? ==>
      Login(st, isPost, false, name, password).response.error != Some(BothFieldsRequired)
  {
  }

  // ----------------------------------------------------------------- tasks

  function TasksHandler(st: State): Outcome {
    Unchanged(st, Render(TasksHtml, None, None, Some(Listing(OpenTasks(st.tasks), ClosedTasks(st.tasks)))))
  }

  /** `tasks`: the page lists every open and every closed task, each list
      ordered by due date, and changes nothing. */
  function Tasks(st: State): (o: Outcome)
    ensures o.state == st
    ensures !st.session.LoggedIn? ==> o.response == Redirect(LoginEndpoint, NeedLogin)
    ensures st.session.LoggedIn? ==>
      && o.response.Render? && o.response.template == TasksHtml && o.response.listing.Some?
      && (forall t :: t in o.response.listing.value.open <==> t in st.tasks.Values && t.status == Open)
      && (forall t :: t in o.response.listing.value.closed <==> t in st.tasks.Values && t.status == Closed)
      && SortedByDue(o.response.listing.value.open)
      && SortedByDue(o.response.listing.value.closed)
    ensures st.session.LoggedIn? ==>
      o.response == Render(TasksHtml, None, None, Some(Listing(OpenTasks(st.tasks), ClosedTasks(st.tasks))))
    ensures st.session.LoggedIn? && WellFormed(st) ==>
      Distinct(o.response.listing.value.open) && Distinct(o.response.listing.value.closed)
  {
    LoginRequired(st, TasksHandler)
  }

  // -------------------------------------------------------------- new_task

  function NewTaskHandler(st: State, isPost: bool, formValid: bool,
                          name: string, dueDate: int, priority: int, postedDate: int): Outcome
  {
    if !isPost then
      Unchanged(st, Render(TasksHtml, None, None, Some(Listing(OpenTasks(st.tasks), ClosedTasks(st.tasks)))))
    else if !formValid then
      Unchanged(st, Render(TasksHtml, Some(AllFieldsRequired), None, None))
    else
      match st.session
      case Anonymous => Unchanged(st, ServerError)
      case LoggedIn(owner, _) =>
        var id := NextKey(st.tasks.Keys);
        Outcome(st.(tasks := st.tasks[id := Task(id, name, dueDate, priority, postedDate, Open, owner)]),
                Redirect(TasksEndpoint, Posted))
  }

  /** `new_task`: a valid POST adds exactly one open task, under a key not
      in use, owned by the session user, and leaves every other row as it
      was; an invalid one adds nothing. */
  function NewTask(st: State, isPost: bool, formValid: bool,
                   name: string, dueDate: int, priority: int, postedDate: int): (o: Outcome)
    ensures o.state.users == st.users && o.state.session == st.session
    ensures !st.session.LoggedIn? ==> o == Outcome(st, Redirect(LoginEndpoint, NeedLogin))
    ensures st.session.LoggedIn? && isPost && formValid ==>
      && o.response == Redirect(TasksEndpoint, Posted)
      && exists k :: k !in st.tasks &&
           o.state.tasks == st.tasks[k := Task(k, name, dueDate, priority, postedDate, Open, st.session.userId)]
    ensures st.session.LoggedIn? && isPost && !formValid ==>
      o == Outcome(st, Render(TasksHtml, Some(AllFieldsRequired), None, None))
    ensures st.session.LoggedIn? && !isPost ==>
      o == Outcome(st, Render(TasksHtml, None, None, Some(Listing(OpenTasks(st.tasks), ClosedTasks(st.tasks)))))
    ensures WellFormed(st) ==> WellFormed(o.state)
  {
    var o := LoginRequired(st, s => NewTaskHandler(s, isPost, formValid, name, dueDate, priority, postedDate));
    assert st.session.LoggedIn? && isPost && formValid ==> WellFormed(st) ==> WellFormed(o.state) by {
      if st.session.LoggedIn? && isPost && formValid && WellFormed(st) {
        var id := NextKey(st.tasks.Keys);
        assert o.state.tasks == st.tasks[id := Task(id, name, dueDate, priority, postedDate, Open, st.session.userId)];
      }
    }
    o
  }

  /** After a valid POST the new task is on the open list, and every task
      that was listed before is still listed in the same list. */
  lemma NewTaskIsListedOpen(st: State, name: string, dueDate: int, priority: int, postedDate: int)
    requires st.session.LoggedIn?
    ensures var after := NewTask(st, true, true, name, dueDate, priority, postedDate).state.tasks;
      && (exists k :: Task(k, name, dueDate, priority, postedDate, Open, st.session.userId) in OpenTasks(after))
      && (forall t :: t in OpenTasks(st.tasks) ==> t in OpenTasks(after))
      && (forall t :: t in ClosedTasks(st.tasks) ==> t in ClosedTasks(after))
  {
    var after := NewTask(st, true, true, name, dueDate, priority, postedDate).state.tasks;
    var id := NextKey(st.tasks.Keys);
    assert id in after && id !in st.tasks;
    assert after[id] in after.Values;
    forall t | t in st.tasks.Values ensures t in after.Values {
      var k :| k in st.tasks && st.tasks[k] == t;
      assert after[k] == t;
    }
  }

  // -------------------------------------------------------------- complete

  function CompleteHandler(st: State, taskId: nat): Outcome {
    match st.session
    case Anonymous => Unchanged(st, ServerError)
    case LoggedIn(requester, role) =>
      if taskId !in st.tasks then Unchanged(st, ServerError)
      else if requester == st.tasks[taskId].userId || role == AdminRole then
        Outcome(st.(tasks := st.tasks[taskId := st.tasks[taskId].(status := Closed)]),
                Redirect(TasksEndpoint, Completed))
      else
        Unchanged(st, Redirect(TasksEndpoint, NotYoursToUpdate))
  }

  /** `complete`: the owner or an admin closes the task and no other row
      changes; anyone else changes nothing; an unknown id fails before the
      rule is applied. */
  function Complete(st: State, taskId: nat): (o: Outcome)
    ensures o.state.users == st.users && o.state.session == st.session
    ensures !st.session.LoggedIn? ==> o == Outcome(st, Redirect(LoginEndpoint, NeedLogin))
    ensures st.session.LoggedIn? && taskId !in st.tasks ==> o == Outcome(st, ServerError)
    ensures taskId in st.tasks && MayChange(st.session, st.tasks[taskId]) ==>
      && o.response == Redirect(TasksEndpoint, Completed)
      && o.state.tasks.Keys == st.tasks.Keys
      && o.state.tasks[taskId] == st.tasks[taskId].(status := Closed)
      && (forall k :: k in st.tasks && k != taskId ==> o.state.tasks[k] == st.tasks[k])
    ensures st.session.LoggedIn? && taskId in st.tasks && !MayChange(st.session, st.tasks[taskId]) ==>
      o == Outcome(st, Redirect(TasksEndpoint, NotYoursToUpdate))
    ensures WellFormed(st) ==> WellFormed(o.state)
  {
    LoginRequired(st, s => CompleteHandler(s, taskId))
  }

  /** A completed task leaves the open list for the closed list, and no row
      ever goes from closed back to open. */
  lemma CompleteMovesTaskToClosed(st: State, taskId: nat)
    requires WellFormed(st) && taskId in st.tasks && MayChange(st.session, st.tasks[taskId])
    ensures var after := Complete(st, taskId).state.tasks;
      && st.tasks[taskId].(status := Closed) in ClosedTasks(after)
      && (forall t :: t in OpenTasks(after) ==> t.taskId != taskId)
      && (forall k :: k in st.tasks && st.tasks[k].status == Closed ==> after[k].status == Closed)
  {
    var after := Complete(st, taskId).state.tasks;
    assert after[taskId] in after.Values;
    forall t | t in OpenTasks(after) ensures t.taskId != taskId {
      var k :| k in after && after[k] == t;
    }
  }

  /** Completing a task twice is the same as completing it once. */
  lemma CompleteIsIdempotent(st: State, taskId: nat)
    ensures var once := Complete(st, taskId);
      Complete(once.state, taskId).state == once.state
  {
    var once := Complete(st, taskId);
    if st.session.LoggedIn? && taskId in st.tasks && MayChange(st.session, st.tasks[taskId]) {
      assert once.state.tasks[taskId := once.state.tasks[taskId].(status := Closed)] == once.state.tasks;
    }
  }

  // ---------------------------------------------------------- delete_entry

  function DeleteHandler(st: State, taskId: nat): Outcome {
    match st.session
    case Anonymous => Unchanged(st, ServerError)
    case LoggedIn(requester, role) =>
      if taskId !in st.tasks then Unchanged(st, ServerError)
      else if requester == st.tasks[taskId].userId || role == AdminRole then
        Outcome(st.(tasks := st.tasks - {taskId}), Redirect(TasksEndpoint, Deleted))
      else
        Unchanged(st, Redirect(TasksEndpoint, NotYoursToDelete))
  }

  /** `delete_entry`: the owner or an admin removes exactly that row; anyone
      else changes nothing; an unknown id fails before the rule is applied. */
  function DeleteEntry(st: State, taskId: nat): (o: Outcome)
    ensures o.state.users == st.users && o.state.session == st.session
    ensures !st.session.LoggedIn? ==> o == Outcome(st, Redirect(LoginEndpoint, NeedLogin))
    ensures st.session.LoggedIn? && taskId !in st.tasks ==> o == Outcome(st, ServerError)
    ensures taskId in st.tasks && MayChange(st.session, st.tasks[taskId]) ==>
      && o.response == Redirect(TasksEndpoint, Deleted)
      && o.state.tasks.Keys == st.tasks.Keys - {taskId}
      && (forall k :: k in o.state.tasks ==> o.state.tasks[k] == st.tasks[k])
    ensures st.session.LoggedIn? && taskId in st.tasks && !MayChange(st.session, st.tasks[taskId]) ==>
      o == Outcome(st, Redirect(TasksEndpoint, NotYoursToDelete))
    ensures WellFormed(st) ==> WellFormed(o.state)
  {
    LoginRequired(st, s => DeleteHandler(s, taskId))
  }

  /** Deleting the same id a second time changes nothing and fails: the row
      is gone, so there is nothing left to delete. */
  lemma DeleteTwiceFails(st: State, taskId: nat)
    requires taskId in st.tasks && MayChange(st.session, st.tasks[taskId])
    ensures var once := DeleteEntry(st, taskId);
      DeleteEntry(once.state, taskId) == Outcome(once.state, ServerError)
  {
  }

  // -------------------------------------------------------------- register

  /** Some existing user already has the name or the email. */
  predicate Taken(users: map<nat, User>, name: string, email: string) {
    exists k :: k in users && (users[k].name == name || users[k].email == email)
  }

  /** `register`: a valid POST adds exactly one user, under a key not in
      use, unless the name or the email is already taken, in which case
      nothing changes and the page shows the conflict. */
  function Register(st: State, isPost: bool, formValid: bool, name: string, email: string,
                    password: string, defaultRole: string): (o: Outcome)
    ensures o.state.tasks == st.tasks && o.state.session == st.session
    ensures !(isPost && formValid) ==> o == Outcome(st, Render(RegisterHtml, None, None, None))
    ensures isPost && formValid && (exists u :: u in st.users.Values && (u.name == name || u.email == email)) ==>
      o == Outcome(st, Render(RegisterHtml, None, Some(Conflict), None))
    ensures isPost && formValid && (forall u :: u in st.users.Values ==> u.name != name && u.email != email) ==>
      && o.response == Redirect(LoginEndpoint, Registered)
      && exists k :: k !in st.users && o.state.users == st.users[k := User(k, name, email, password, defaultRole)]
    ensures WellFormed(st) ==> WellFormed(o.state)
  {
    if !(isPost && formValid) then Unchanged(st, Render(RegisterHtml, None, None, None))
    else if Taken(st.users, name, email) then Unchanged(st, Render(RegisterHtml, None, Some(Conflict), None))
    else
      var id := NextKey(st.users.Keys);
      Outcome(st.(users := st.users[id := User(id, name, email, password, defaultRole)]),
              Redirect(LoginEndpoint, Registered))
  }

  /** A user who has just registered can log in with the same name and
      password, and is then logged in as the new user with the default
      role. */
  lemma RegisterThenLogin(st: State, name: string, email: string, password: string, defaultRole: string)
    requires WellFormed(st)
    requires forall u :: u in st.users.Values ==> u.name != name && u.email != email
    ensures var registered := Register(st, true, true, name, email, password, defaultRole).state;
      var o := Login(registered, true, true, name, password);
      && o.response == Redirect(TasksEndpoint, Welcome)
      && o.state.session.LoggedIn?
      && o.state.session.userId !in st.users
      && o.state.session.role == defaultRole
  {
    var registered := Register(st, true, true, name, email, password, defaultRole).state;
    var id := NextKey(st.users.Keys);
    assert registered.users[id] in registered.users.Values;
    LoginSucceedsIff(registered, true, name, password);
  }

}
