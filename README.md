# Focus app: a verified model of its table logic

The application is a Flask web app. Users sign up and log in, keep a task list, and run focus timers. A focused session earns experience points (XP) and levels. Users can also befriend each other, view a friend's tasks, and see a leaderboard ranked by XP. Every route runs a few parameterised SQL statements against five tables: `users`, `tasks`, `sessions`, `shared_timers` and `friends`.

This project models those statements as an in-memory state machine:

- `Tables` declares one datatype per table row. A table is a sequence of rows in storage order.
- `Rows` defines the meaning of the SQL forms used: `UPDATE ... WHERE` (Update), `DELETE`/`SELECT ... WHERE` (Filter), `JOIN` (Join), and primary and unique keys (DistinctKeys, KeysBelow). It also holds the generic lemmas about them.
- `Accounts`, `Tasks`, `Timers`, `Xp`, `Friends` and `Leaderboard` give each statement of the routes as a function, with a contract on what it changes. They also hold lemmas for the properties the application relies on:
  - ownership-filtered task mutations;
  - toggling twice is the identity;
  - the lazy XP reset is idempotent;
  - the level-up check runs once, not in a loop;
  - at most one friendship row per pair of users;
  - only the request's recipient may respond;
  - signup then login succeeds;
  - top-ten leaderboard order.
- `App.FocusApp` is a class that holds the five tables and their AUTO_INCREMENT counters. Each mutating route is a method whose `modifies` clause names exactly the fields it changes. `Valid()` keeps these invariants:
  - primary keys are unique and lie below their counters;
  - usernames are unique;
  - every level is at least 1;
  - at most one `friends` row connects any unordered pair.

  The read-only routes are functions over the tables: `Accounts.Login`, `Friends.ShowFriends`, `Friends.FriendTasks` and `Leaderboard.ShowLeaderboard`.

Inputs from outside the model are parameters:

- The logged-in user is `session: Option<Id>`. The four task routes take a plain id instead, because they read the session without checking it; see "## Left out".
- The current date is `today`, and `datetime.now()` is a `Timestamp` parameter.
- `signup` takes the password hash as a parameter, and login takes the hash check as a function parameter.

In some places the code does less than one would expect of such an app. The model follows the code:

- **Self friend request.** A request to oneself would naturally be refused. `add_friend_by_code` has no such check, so a pending self-row is stored (`Friends.SelfRequestIsStored`).
- **Friendship status.** A row would naturally go only from pending to accepted, or from pending to deleted. `respond_request` does not look at the status, so the recipient can "reject" a friendship that was already accepted, which deletes it (`Friends.RejectEndsAcceptedFriendship`).
- **Negative XP.** XP is meant to count focused minutes, so it should never be negative. `end_timer` credits whatever integer `minutes` it is sent. `Xp.XpStaysNonNegative` proves non-negativity only for non-negative minutes. `Xp.NegativeMinutesLowerXp` shows the other case.
- **Column defaults.** The table schema is not part of this model. The column defaults that the INSERTs rely on are assumptions of the model:
  - a new user has xp 0, level 1 and a NULL `last_xp_update` (`Tables.NewUser`);
  - a new task has `completed` false (`Tables.NewTask`);
  - a new session has NULL `end_time`, `focused` and `reason` (`Timers.OpenSession`).

## Model

| member | source | states |
|---|---|---|
| Accounts.FindByUsername | app.py:62-63 | a row with that username, and none exactly when no row has it |
| Rows.SameKeySameRow | app.py:42-48 | under a unique key, such as the username that signup keeps unique or a friendship id, two rows with the same key are the same row |
| Rows.FilterCounts | app.py:133 | a WHERE clause keeps each selected row exactly as many times as the table holds it, and drops every other row |
| Rows.JoinNoDuplicates | app.py:209-225 | a join of duplicate-free tables, where distinct matching pairs give distinct outputs, yields each output once |
| Accounts.Login | app.py:57-70 | success only with a row of that username whose stored hash accepts the password, binding that row's id and the username; with usernames unique, success exactly when such a row exists; an unknown username fails |
| Accounts.SignupThenLogin | app.py:42-68 | after signing up a fresh username, usernames stay unique, login with an accepted password yields the new id, and a rejected password fails |
| Tasks.TasksOf | app.py:98 | exactly the rows owned by the user, each as many times as the table holds it |
| Tasks.Toggle | app.py:123-124 | no row added or removed, ids, owners and descriptions kept, and `completed` flips exactly on the rows with that id and owner |
| Tasks.ToggleUnmatched | app.py:123-124 | a toggle of a foreign or unknown task id is a no-op |
| Tasks.ToggleTwice | app.py:123-124 | toggling twice restores the table |
| Tasks.ToggleAtMostOne | app.py:123-124 | with unique task ids at most one row changes |
| Tasks.Delete | app.py:133 | exactly the rows that do not match both id and owner remain, each as many times as before |
| Tasks.DeleteAtMostOne | app.py:133 | with unique ids at most one row goes, and none when nothing matches |
| Tasks.Clear | app.py:142 | exactly the rows of other users remain, each as many times as before |
| Tasks.ClearKeepsOthers | app.py:142 | every other user's task list is unchanged, in content and order |
| Tasks.AddShowsNewTask | app.py:113-114 | after the insert the owner's list gains the new task at the end and other lists are unchanged |
| Timers.Close | app.py:186-189 | only the session with that id and owner gets end time, focused flag and reason; every other row is unchanged |
| Timers.CloseForeignIsNoop | app.py:186-189 | ending a foreign or unknown session changes no row |
| Xp.ResetAll | app.py:22 | every user's XP becomes 0 and no other column changes |
| Xp.LazyReset | app.py:90-94 | only the acting user's row is touched, and only when its last update is NULL or before today: XP 0 and last update today; afterwards the user is never stale |
| Xp.LazyResetIdempotent | app.py:90-94 | a second reset on the same day changes nothing |
| Xp.CreditXp | app.py:192 | the acting user's XP grows by the minutes and nothing else changes |
| Xp.LevelUp | app.py:193 | the acting user's level grows by one exactly when its XP is at least 50 |
| Xp.FocusReward | app.py:191-193 | XP grows by the minutes and the level by exactly one if the new XP is at least 50, else by none; other users are untouched |
| Xp.LevelsStayPositive | app.py:191-193 | no XP statement takes a level below 1: neither the reward here, nor the global reset at app.py:22, nor the lazy reset at app.py:90-94 |
| Xp.XpStaysNonNegative | app.py:191-193 | with non-negative minutes every XP statement keeps XP non-negative |
| Xp.NegativeMinutesLowerXp | app.py:183 | a negative minutes value drives XP below zero |
| Xp.FiftyMinutesFromZero | app.py:191-193 | a 50-minute focused session from zero XP grants one level |
| Xp.TwoThirtyMinuteSessions | app.py:191-193 | two 30-minute sessions from zero give XP 60 and one level in all |
| Xp.PastThresholdEverySessionLevels | app.py:193 | once XP is at least 50, every further focused session of non-negative minutes grants a level |
| Friends.LinksIsSamePair | app.py:247-250 | the either-direction test holds exactly when the row connects the unordered pair |
| Friends.SendRequest | app.py:241-257 | not-found exactly when no user has the target id; conflict exactly when the user exists and a row links the pair in either direction; otherwise one pending row from actor to target is appended |
| Friends.SendKeepsInvariants | app.py:246-257 | a sent request keeps at most one row per pair and keeps friendship ids unique and below the counter |
| Friends.Lookup | app.py:270-271 | a row with that id, and none exactly when no row has it |
| Friends.Accept | app.py:275 | status becomes accepted on the rows with that id; endpoints and ids are kept |
| Friends.Reject | app.py:277 | exactly the rows with other ids remain, each as many times as before |
| Friends.Respond | app.py:270-278 | the table changes only by an accept or a reject; any action other than these two, or a caller who is not the row's recipient, changes nothing; with unique ids the recipient's accept and reject take effect |
| Friends.RespondKeepsInvariants | app.py:273-278 | a response keeps at most one row per pair and the friendship keys valid |
| Friends.Incoming | app.py:209-215 | exactly the pending requests addressed to the user, each with the requester's username; with unique user and friendship ids, each listed once |
| Friends.IncomingOnce | app.py:209-215 | with unique user and friendship ids, the incoming-requests join lists no row twice |
| Friends.FriendList | app.py:218-225 | exactly the users joined to the actor by an accepted row in either direction; with unique user ids and one row per pair, each listed once |
| Friends.FriendListOnce | app.py:218-225 | with unique user ids and one row per pair, the friend-list join lists no friend twice |
| Friends.FriendListSymmetric | app.py:218-225 | b is listed as a friend of a exactly when a is listed as a friend of b |
| Friends.ShowFriends | app.py:202-228 | no session asks for login; otherwise the incoming requests and the friends as above, each list free of repeats under the table invariants |
| Friends.FriendTasks | app.py:287-306 | no session asks for login; not-friends exactly when no row links the two; otherwise exactly the friend's tasks, each as many times as the table holds it |
| Friends.PendingGrantsTaskAccess | app.py:293-300 | a pending row already opens either user's tasks to the other |
| Friends.SelfRequestIsStored | app.py:241-257 | a request to oneself is stored when no self-row exists yet |
| Friends.RejectEndsAcceptedFriendship | app.py:273-277 | the recipient's reject deletes even an accepted row |
| Leaderboard.SortByXp | app.py:314 | a permutation of the users with XP non-increasing |
| Leaderboard.TopByXp | app.py:314 | min(10, number of users) users, XP non-increasing, drawn from the table |
| Leaderboard.LeftOutRankLower | app.py:314 | every user left off the board has XP no greater than every user on it |
| Leaderboard.ShowLeaderboard | app.py:310-317 | no session asks for login; otherwise min(10, n) rows by XP descending, row i being the username, level and XP of the i-th of the top users; a user whose standing is not shown has XP no greater than any row shown |
| Leaderboard.BoardFacts | app.py:314 | the board's rows descend by XP, each is a user's standing, and no user left off has more XP than a row on it |
| Leaderboard.ElevenUsersShowTen | app.py:314 | eleven users give ten rows |
| App.FocusApp.Signup | app.py:34-51 | a duplicate username is refused with the table unchanged; otherwise exactly one new user with the next id; the invariants hold afterwards |
| App.FocusApp.Home | app.py:83-106 | no session asks for login and changes nothing; otherwise the lazy reset of the user's row and the user's task list |
| App.FocusApp.AddTask | app.py:110-117 | one uncompleted task of the user is appended with the next id |
| App.FocusApp.ToggleTask | app.py:121-127 | the tasks table becomes Tasks.Toggle of the old one; nothing else changes |
| App.FocusApp.DeleteTask | app.py:131-136 | the tasks table becomes Tasks.Delete of the old one and loses at most one row |
| App.FocusApp.ClearTasks | app.py:140-145 | the tasks table becomes Tasks.Clear of the old one and every other user's list is unchanged |
| App.FocusApp.StartTimer | app.py:151-173 | no session asks for login; otherwise one open session with the next id, whose id is returned, and one shared timer exactly when a friend id was sent |
| App.FocusApp.EndTimer | app.py:177-197 | no session asks for login; otherwise the owned session is closed, and the XP reward is applied exactly when focused, whether or not the session row matched |
| App.FocusApp.ResetDailyXp | app.py:20-23 | every user's XP becomes 0 |
| App.FocusApp.AddFriendByCode | app.py:233-260 | no session asks for login; otherwise the outcome and table of Friends.SendRequest, advancing the counter only when a request is stored |
| App.FocusApp.RespondRequest | app.py:265-280 | no session asks for login; otherwise the table becomes Friends.Respond of the old one |

## Left out

- Flask routing, the GET branches that only render a form, `render_template` and the HTML replies. Each route's outcome is a datatype instead.
- Form parsing: a malformed `int(...)` aborts the request before any statement runs. The model takes the parsed values. An empty or missing `friend_id` becomes `None`.
- The signed session cookie, `session.clear()` in `logout`, and the embedded secret key. The logged-in user is a parameter.
- Password hashing (werkzeug). Signup receives the hash. Login receives the hash check as a function.
- The MySQL driver, cursors, commits, and the configuration read from the environment. `LAST_INSERT_ID()` is the session counter as it stood before the insert.
- The scheduler (APScheduler cron at 00:00) and the `print` in `reset_daily_xp`. Only the reset statement is modelled.
- Accounts.FindByUsername: usernames are compared as exact strings, as under a binary collation. It does not model MySQL's default case-insensitive collation, under which signup of "alice" is refused when "Alice" exists, and login as "ALICE" finds Alice's row. The same holds for Accounts.UniqueUsernames and Accounts.Login.
- Xp.CreditXp: XP is an unbounded integer. An INT column overflow on `xp = xp + minutes` aborts the request in MySQL's strict mode, and that failure is not modelled.
- App.FocusApp.StartTimer: takes `friend_id` as an optional integer. The code passes the raw form string to the `shared_timers` INSERT after the session row is already committed. A non-numeric `friend_id` fails there, leaving the session row stored without a shared timer, and the request ends in an error. The model does not capture that case.
- App.FocusApp.AddTask, App.FocusApp.ToggleTask, App.FocusApp.DeleteTask and App.FocusApp.ClearTasks take the acting user's id directly. `add_task`, `toggle_task`, `delete_task` and `clear_tasks` read `session['user_id']` without checking it (app.py:114, 124, 133, 142). When no one is logged in, the request fails with an error before any statement runs. That case is not modelled.
- Concurrency between requests and between the scheduler and requests. Each method is one request, run on its own.
- The commented-out friend-timer query in `home`.
- Tasks.TasksOf: states which rows a user sees, not their order. SQL gives no order without `ORDER BY`. The model keeps storage order.
- Friends.Incoming and Friends.ShowFriends: state which requests appear, and that each appears once under the key invariants, but not their order. SQL leaves the order of a join unspecified.
- Friends.FriendList and Friends.ShowFriends: state which friends appear, and that each appears once under unique user ids and one row per pair, but not their order. SQL leaves the order of a join unspecified.
- Leaderboard.ShowLeaderboard: its rows are those of Leaderboard.TopByXp, which keeps storage order among users with equal XP. That includes which tied user takes the last place. MySQL promises neither. The descending, drawn-from-the-table and left-out-rank-lower ensures hold whichever way ties are resolved.
