# flasktaskr: tasks, users and sessions

This project models the request handlers of flasktaskr, a small Flask task-list
application, in Dafny. The application keeps two tables. The Task table holds the
name, due date, priority, posting time, status (`"1"` open, `"0"` closed) and owner
of each task. The User table holds a name, email, password and role for each user.
The handlers read and change these tables and the client's session (`logged_in`,
`user_id`, `role`):

- `login` looks the user up by name and compares the password.
- `logout` clears the session.
- `tasks` lists the open and the closed tasks, each ordered by due date.
- `new_task` adds an open task owned by the session user.
- `complete` and `delete_entry` close or remove a task, but only for its owner or
  an admin.
- `register` adds a user unless the name or email is already taken.
- `login_required` sends a client without a session to the login page.

The project has five modules:

- `Wrappers` (wrappers.dfy): the `Option` type, for a lookup that may find nothing
  and a template argument a handler may leave out.
- `Store` (store.dfy): the rows, the session, primary-key order, the key a new row
  gets, and the lookup by name.
- `Queries` (queries.dfy): the `open_tasks` and `closed_tasks` queries, written as
  a selection in key order followed by a stable insertion sort on the due date.
- `Views` (views.dfy): each handler as a function from the state a request sees to
  the new state and the response. A response is a redirect with its flashed
  message, a rendered template with its flashed message, error and task lists, or
  an internal server error.
- `Server` (server.dfy): class `App`. Its fields are the two tables and the
  session, and its methods change them in place. Each method is proved to produce
  exactly the outcome its `Views` function prescribes, and to keep the database
  invariant `WellFormed`. The six tests of tests/test_tasks.py are restated as
  verified scenario methods on a fresh `App`:
  - adding a task and completing it (`AddAndCompleteScenario`);
  - adding a task with an invalid form (`AddTaskWithErrorScenario`);
  - deleting one's own task (`DeleteOwnTaskScenario`);
  - the two tests where another user may not complete or delete it
    (`OthersTaskScenario`).

  The invalid-form test checks for WTForms' field error "This field is required.",
  which the model does not produce. The scenario shows the handler's own answer
  instead: the tasks page with "All fields are required." flashed.

Notes on how the model reads the code:

- `login` tests `form.validate_on_submit` without calling it. A bound method is
  always true in Python, so the "Both fields are required" branch can never run.
  The model follows the code: `ValidateOnSubmitAttribute` is always true and
  `LoginIgnoresFormValidation` proves that the form's verdict makes no difference.
- The flashed message after adding a task keeps the code's spelling,
  "New entry was succesfully posted. Thanks."
- Some failures raise an exception, which the framework answers with an internal
  server error (`ServerError`):
  - `complete` or `delete_entry` on an id with no row: `first()` returns `None`
    and the attribute read fails before the ownership rule is applied.
  - An unguarded handler body reading `session['user_id']` without a session.
- A new row's key is one more than the largest key in use, or 1 in an empty table
  (SQLite's rowid rule). The tests rely on the first task getting id 1.

## Model

| member | source | states |
|---|---|---|
| Store.SortedKeys | project/views.py:30-36 | the keys of a table in strictly ascending order, each key exactly once |
| Store.NextKey | project/views.py:100-109 | the key of a newly inserted row is not in use, is at least 1, exceeds every key in use, and is 1 in an empty table |
| Store.FirstNamed | project/views.py:65 | `filter_by(name=...).first()` over a key set: a found row is in the table and has that name; nothing is found exactly when no row under those keys has the name |
| Store.FindByName | project/views.py:65 | the user lookup of `login`: a found user is in the table with that name; the result is None exactly when no user has that name |
| Queries.Select | project/views.py:30-36 | `filter_by(status=...)`: every selected row is in the table with that status, and every row with that status under the given keys is selected |
| Queries.SelectDistinct | project/views.py:30-36 | over keyed rows in ascending key order, the selection holds no row twice and only rows under those keys |
| Queries.Insert | project/views.py:30-36 | inserting into a list ordered by due date keeps it ordered and adds exactly that row |
| Queries.InsertDistinct | project/views.py:30-36 | inserting a row that is not yet listed keeps a list free of duplicates |
| Queries.SortByDue | project/views.py:30-36 | `order_by(Task.due_date.asc())`: the result is ordered by due date and is a permutation of the input |
| Queries.SortDistinct | project/views.py:30-36 | sorting keeps a list free of duplicates |
| Queries.SelectCoversTable | project/views.py:30-36 | selecting over all keys in ascending order misses no row with the given status |
| Queries.SortKeepsRows | project/views.py:30-36 | sorting neither adds nor drops a row |
| Queries.TasksWithStatus | project/views.py:30-36 | a row is listed exactly when it is in the table with that status; the list is ordered by due date and holds each row once |
| Queries.OpenTasks | project/views.py:30-32 | `open_tasks`: exactly the open rows, ordered by due date, each once |
| Queries.ClosedTasks | project/views.py:34-36 | `closed_tasks`: exactly the closed rows, ordered by due date, each once |
| Queries.StatusSplitsKeys | project/views.py:30-36 | every key of the table has exactly one of the two statuses |
| Queries.ListLength | project/views.py:30-36 | each list has as many entries as the table has rows with that status |
| Queries.ListsPartitionTable | project/views.py:30-36 | every row is on exactly one of the two lists, and together the lists are as long as the table |
| Queries.DistinctIds | project/views.py:30-36 | a duplicate-free list of rows is as long as the set of their keys |
| Views.LoginRequired | project/views.py:39-47 | with a session the wrapped handler's outcome; without one nothing changes and the client is redirected to the login page with "You need to login first." |
| Views.Logout | project/views.py:50-57 | the session is cleared and the tables are untouched; the flash is "Goodbye" after a login and the login-required message otherwise; the invariant is kept |
| Views.Login | project/views.py:59-76 | the tables never change; the session changes only on a successful login; a GET renders the login page; "Both fields are required" is never the answer |
| Views.LoginSucceedsIff | project/views.py:63-73 | a POST logs in exactly when some user has that name and password, and then as that user with that user's role; otherwise nothing changes and the page shows "Invalid username or password" |
| Views.LoginKeepsWellFormed | project/views.py:65-69 | a login puts an existing user with that user's role in the session |
| Views.LoginIgnoresFormValidation | project/views.py:64-75 | the form's verdict never changes the outcome of `login` |
| Views.Tasks | project/views.py:81-89 | changes nothing; with a session it renders the tasks page with no flash and no error, listing `open_tasks` and `closed_tasks` of the current table: every open and every closed task, each once, each list ordered by due date; without one it redirects to login |
| Views.NewTask | project/views.py:92-122 | a valid POST adds exactly one open task owned by the session user under an unused key and changes no other row; an invalid POST flashes "All fields are required." and changes nothing; a GET changes nothing and renders the tasks page with `open_tasks` and `closed_tasks` of the current table; the invariant is kept |
| Views.NewTaskIsListedOpen | project/views.py:98-111 | after a valid POST the new task is on the open list, and every previously listed task is still on its list |
| Views.Complete | project/views.py:126-138 | the owner or an admin closes exactly that task and no other row changes; anyone else changes nothing and is told so; an unknown id is a server error; the invariant is kept |
| Views.CompleteMovesTaskToClosed | project/views.py:131-135 | the completed task is on the closed list and off the open list, and no closed task is reopened |
| Views.CompleteIsIdempotent | project/views.py:126-138 | completing a task twice leaves the same state as completing it once |
| Views.DeleteEntry | project/views.py:141-153 | the owner or an admin removes exactly that row and keeps every other; anyone else changes nothing and is told so; an unknown id is a server error; the invariant is kept |
| Views.DeleteTwiceFails | project/views.py:141-153 | a second delete of the same id changes nothing and ends in a server error |
| Views.Register | project/views.py:155-174 | a valid POST with a new name and email adds exactly one user with the default role under an unused key; a taken name or email changes nothing and shows the conflict; anything else renders the form; the invariant is kept |
| Views.RegisterThenLogin | project/views.py:155-174 | a user who has just registered can log in with the same name and password, and is then logged in as the new user with the default role |
| Server.App.constructor | tests/test_tasks.py:14-20 | a fresh database has empty tables, no session, and satisfies the invariant |
| Server.App.Logout | project/views.py:50-57 | the new session and the response are those of Views.Logout; the invariant is kept |
| Server.App.Login | project/views.py:59-76 | the new session and the response are those of Views.Login; the invariant is kept |
| Server.App.Tasks | project/views.py:81-89 | the response is that of Views.Tasks, and nothing changes |
| Server.App.NewTask | project/views.py:92-122 | the new Task table and the response are those of Views.NewTask; the invariant is kept |
| Server.App.Complete | project/views.py:126-138 | the new Task table and the response are those of Views.Complete; the invariant is kept |
| Server.App.DeleteEntry | project/views.py:141-153 | the new Task table and the response are those of Views.DeleteEntry; the invariant is kept |
| Server.App.Register | project/views.py:155-174 | the new User table and the response are those of Views.Register; the invariant is kept |
| Server.AddAndCompleteScenario | tests/test_tasks.py:89-96 | after logging in, adding a task flashes the posted message and completing task 1 succeeds |
| Server.AddTaskWithErrorScenario | tests/test_tasks.py:74-87 | a logged-in user's POST with an invalid task form gets the tasks page with "All fields are required." flashed |
| Server.MichaelsTask | tests/test_tasks.py:107-113 | after register, login, add and logout, Michael is the only user and owns task 1 |
| Server.DeleteOwnTaskScenario | tests/test_tasks.py:98-105 | the owner deleting task 1 is told that it was deleted |
| Server.FletcherRegistered | tests/test_tasks.py:114-115 | a second user with a new key and the default role is added |
| Server.FletcherLoggedIn | tests/test_tasks.py:116 | the second user is logged in as someone other than task 1's owner, without the admin role |
| Server.OthersTaskScenario | tests/test_tasks.py:107-137 | that user can neither complete nor delete task 1 and is told so |

## Left out

- Flask itself is not modelled: routing, the request object, `url_for`, template
  rendering and the flash queue. A response records the endpoint, the template, and
  the message flashed or shown.
- WTForms is not modelled: `validate_on_submit()` of the task and registration
  forms is a boolean input. The form fields arrive already converted: the due date
  is a day number and the priority an integer. Date parsing is not modelled.
- The posting time comes from `datetime.utcnow()`: it is a parameter of
  `new_task` because the clock is outside the model.
- The User model's default role for a new user is a parameter of `App`, because
  project/models.py is not part of this model. The scenarios use "user".
- The scenarios add users through the register handler. The test suite writes the
  rows directly, which gives the same rows.
- The nested `register` at project/views.py:78-79 is not modelled: it is never
  defined (it follows a return) and never called.
- Queries.SortByDue: tasks with the same due date stay in key order. The database
  leaves their order unspecified, so that tie-break is the model's choice.
- SQLAlchemy's session is not modelled: the unit of work, transactions, and the
  missing rollback after an `IntegrityError`. Each handler's change is applied at
  once. A register that breaks a unique constraint changes nothing.
- A login POST missing a form field is not modelled. `request.form['name']` at
  project/views.py:65 raises a 400 error inside the handler, before any state
  change. `request.form['password']` at project/views.py:66 is read only when a user
  with that name exists, so with an unknown name a missing password still gets
  "Invalid username or password".
- Concurrent requests and several clients are not modelled: there is one session.
- Passwords are compared as plain strings, as the code does. Hashing is not
  modelled because there is none.
