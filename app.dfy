/** The application's state and its mutating routes. The five tables are
    fields of one object; every route that changes a table is a method
    that names exactly the fields it may change. The logged-in user is
    `session` (None when there is none) for routes that check it, and a
    plain user id for the task routes, which read the session without a
    check. The read-only routes are functions over the tables:
    Accounts.Login, Friends.ShowFriends, Friends.FriendTasks and
    Leaderboard.ShowLeaderboard. */
module App {
  import opened Tables
  import Rows
  import Accounts
  import Tasks
  import Timers
  import Xp
  import Friends

  datatype SignupOutcome = UsernameExists | Registered
  datatype HomeView = HomeLoginRequired | HomePage(tasks: seq<Task>)
  datatype TimerStart = StartLoginRequired | Started(sessionId: Id)
  datatype TimerEnd = EndLoginRequired | NoContent
  datatype RequestReply = RequestLoginRequired | RequestReply(outcome: Friends.RequestOutcome)
  datatype RespondReply = RespondLoginRequired | BackToFriends

  class FocusApp {
    var users: seq<User>
    var tasks: seq<Task>
    var sessions: seq<FocusSession>
    var sharedTimers: seq<SharedTimer>
    var friends: seq<Friendship>

    // The AUTO_INCREMENT counters: the id the next INSERT gets.
    var nextUserId: nat
    var nextTaskId: nat
    var nextSessionId: nat
    var nextTimerId: nat
    var nextFriendshipId: nat

    /** The database's keys and constraints, and the facts the routes keep. */
    ghost predicate Valid()
      reads this
    {
      && Rows.DistinctKeys(users, UserKey) && Rows.KeysBelow(users, UserKey, nextUserId)
      && Accounts.UniqueUsernames(users)
      && (forall u :: u in users ==> u.level >= 1)
      && Rows.DistinctKeys(tasks, TaskKey) && Rows.KeysBelow(tasks, TaskKey, nextTaskId)
      && Rows.DistinctKeys(sessions, SessionKey) && Rows.KeysBelow(sessions, SessionKey, nextSessionId)
      && Rows.DistinctKeys(sharedTimers, TimerKey) && Rows.KeysBelow(sharedTimers, TimerKey, nextTimerId)
      && Rows.DistinctKeys(friends, FriendshipKey) && Rows.KeysBelow(friends, FriendshipKey, nextFriendshipId)
      && Friends.OnePerPair(friends)
    }

    /** Empty tables; every counter starts at 1. */
    constructor ()
      ensures Valid()
      ensures users == [] && tasks == [] && sessions == [] && sharedTimers == [] && friends == []
    {
      users, tasks, sessions, sharedTimers, friends := [], [], [], [], [];
      nextUserId, nextTaskId, nextSessionId, nextTimerId, nextFriendshipId := 1, 1, 1, 1, 1;
    }

    /** `signup`: refuse a username already present, else insert one user
        with the hash the password hasher produced. */
    method Signup(username: string, passwordHash: string) returns (outcome: SignupOutcome)
      requires Valid()
      modifies this`users, this`nextUserId
      ensures Valid()
      ensures outcome == UsernameExists <==> Accounts.UsernameTaken(old(users), username)
      ensures outcome == UsernameExists ==> users == old(users) && nextUserId == old(nextUserId)
      ensures outcome == Registered ==>
        users == old(users) + [NewUser(old(nextUserId), username, passwordHash)] &&
        nextUserId == old(nextUserId) + 1
    {
      if Accounts.UsernameTaken(users, username) {
        return UsernameExists;
      }
      var u := NewUser(nextUserId, username, passwordHash);
      Rows.AppendFresh(users, u, UserKey, nextUserId);
      Rows.AppendDistinct(users, u, UsernameKey);
      users, nextUserId := users + [u], nextUserId + 1;
      outcome := Registered;
    }

    /** `home`: reset the user's XP if it was last updated before today,
        then list the user's tasks. */
    method Home(session: Option<Id>, today: Date) returns (view: HomeView)
      requires Valid()
      modifies this`users
      ensures Valid()
      ensures session.None? ==> view == HomeLoginRequired && users == old(users)
      ensures session.Some? ==>
        users == Xp.LazyReset(old(users), session.value, today) &&
        view == HomePage(Tasks.TasksOf(tasks, session.value))
    {
      if session.None? {
        return HomeLoginRequired;
      }
      var actor := session.value;
      var reset := Xp.LazyReset(users, actor, today);
      Xp.AccountKeysCarry(users, reset, nextUserId);
      Xp.LevelsStayPositive(users, actor, 0, today);
      users := reset;
      view := HomePage(Tasks.TasksOf(tasks, actor));
    }

    /** `add_task`: insert one uncompleted task owned by the user. */
    method AddTask(actor: Id, description: string)
      requires Valid()
      modifies this`tasks, this`nextTaskId
      ensures Valid()
      ensures tasks == old(tasks) + [NewTask(old(nextTaskId), actor, description)]
      ensures nextTaskId == old(nextTaskId) + 1
    {
      var t := NewTask(nextTaskId, actor, description);
      Rows.AppendFresh(tasks, t, TaskKey, nextTaskId);
      tasks, nextTaskId := tasks + [t], nextTaskId + 1;
    }

    /** `toggle_task`: flip `completed` of the user's own task `taskId`. */
    method ToggleTask(actor: Id, taskId: Id)
      requires Valid()
      modifies this`tasks
      ensures Valid()
      ensures tasks == Tasks.Toggle(old(tasks), taskId, actor)
    {
      Tasks.ToggleKeepsKeys(tasks, taskId, actor, nextTaskId);
      tasks := Tasks.Toggle(tasks, taskId, actor);
    }

    /** `delete_task`: delete the user's own task `taskId`. */
    method DeleteTask(actor: Id, taskId: Id)
      requires Valid()
      modifies this`tasks
      ensures Valid()
      ensures tasks == Tasks.Delete(old(tasks), taskId, actor)
      ensures |tasks| + 1 >= |old(tasks)|
    {
      Tasks.DeleteKeepsKeys(tasks, taskId, actor, nextTaskId);
      Tasks.DeleteAtMostOne(tasks, taskId, actor);
      tasks := Tasks.Delete(tasks, taskId, actor);
    }

    /** `clear_tasks`: delete every task of the user and no other. */
    method ClearTasks(actor: Id)
      requires Valid()
      modifies this`tasks
      ensures Valid()
      ensures tasks == Tasks.Clear(old(tasks), actor)
      ensures forall other :: other != actor ==> Tasks.TasksOf(tasks, other) == Tasks.TasksOf(old(tasks), other)
    {
      Tasks.ClearKeepsKeys(tasks, actor, nextTaskId);
      ghost var before := tasks;
      tasks := Tasks.Clear(tasks, actor);
      forall other | other != actor
        ensures Tasks.TasksOf(tasks, other) == Tasks.TasksOf(before, other)
      {
        Tasks.ClearKeepsOthers(before, actor, other);
      }
    }

    /** `start_timer`: open a session row and return its id
        (`LAST_INSERT_ID()`); when a friend id was sent, also record a
        shared timer with it. */
    method StartTimer(session: Option<Id>, minutes: int, friendId: Option<int>, startedAt: Timestamp, sharedAt: Timestamp)
      returns (r: TimerStart)
      requires Valid()
      modifies this`sessions, this`nextSessionId, this`sharedTimers, this`nextTimerId
      ensures Valid()
      ensures session.None? ==>
        r == StartLoginRequired &&
        sessions == old(sessions) && nextSessionId == old(nextSessionId) &&
        sharedTimers == old(sharedTimers) && nextTimerId == old(nextTimerId)
      ensures session.Some? ==>
        r == Started(old(nextSessionId)) &&
        sessions == old(sessions) + [Timers.OpenSession(old(nextSessionId), session.value, startedAt)] &&
        nextSessionId == old(nextSessionId) + 1
      ensures session.Some? && friendId.Some? ==>
        sharedTimers == old(sharedTimers) + [SharedTimer(old(nextTimerId), session.value, friendId.value, sharedAt, minutes)] &&
        nextTimerId == old(nextTimerId) + 1
      ensures friendId.None? ==> sharedTimers == old(sharedTimers) && nextTimerId == old(nextTimerId)
    {
      if session.None? {
        return StartLoginRequired;
      }
      var actor := session.value;
      var s := Timers.OpenSession(nextSessionId, actor, startedAt);
      Rows.AppendFresh(sessions, s, SessionKey, nextSessionId);
      sessions, nextSessionId := sessions + [s], nextSessionId + 1;
      r := Started(s.id);
      if friendId.Some? {
        var t := SharedTimer(nextTimerId, actor, friendId.value, sharedAt, minutes);
        Rows.AppendFresh(sharedTimers, t, TimerKey, nextTimerId);
        sharedTimers, nextTimerId := sharedTimers + [t], nextTimerId + 1;
      }
    }

    /** `end_timer`: close the user's own session `sessionId`; when the
        session was focused, credit the minutes and grant one level if XP
        now reaches the threshold. The credit is made whether or not the
        session row matched. */
    method EndTimer(session: Option<Id>, sessionId: Id, focused: bool, reason: string, minutes: int, endedAt: Timestamp)
      returns (r: TimerEnd)
      requires Valid()
      modifies this`sessions, this`users
      ensures Valid()
      ensures session.None? ==> r == EndLoginRequired && sessions == old(sessions) && users == old(users)
      ensures session.Some? ==>
        r == NoContent &&
        sessions == Timers.Close(old(sessions), sessionId, session.value, endedAt, focused, reason) &&
        users == (if focused then Xp.FocusReward(old(users), session.value, minutes) else old(users))
    {
      if session.None? {
        return EndLoginRequired;
      }
      var actor := session.value;
      Timers.CloseKeepsKeys(sessions, sessionId, actor, endedAt, focused, reason, nextSessionId);
      sessions := Timers.Close(sessions, sessionId, actor, endedAt, focused, reason);
      if focused {
        var rewarded := Xp.FocusReward(users, actor, minutes);
        Xp.AccountKeysCarry(users, rewarded, nextUserId);
        Xp.LevelsStayPositive(users, actor, minutes, 0);
        users := rewarded;
      }
      r := NoContent;
    }

    /** The daily job: `UPDATE users SET xp = 0`. */
    method ResetDailyXp()
      requires Valid()
      modifies this`users
      ensures Valid()
      ensures users == Xp.ResetAll(old(users))
    {
      var reset := Xp.ResetAll(users);
      Xp.AccountKeysCarry(users, reset, nextUserId);
      Xp.LevelsStayPositive(users, 0, 0, 0);
      users := reset;
    }

    /** `add_friend_by_code`: send a pending request to the user `target`
        unless no such user exists or the two are already related. */
    method AddFriendByCode(session: Option<Id>, target: int) returns (r: RequestReply)
      requires Valid()
      modifies this`friends, this`nextFriendshipId
      ensures Valid()
      ensures session.None? ==>
        r == RequestLoginRequired && friends == old(friends) && nextFriendshipId == old(nextFriendshipId)
      ensures session.Some? ==>
        var sent := Friends.SendRequest(old(users), old(friends), old(nextFriendshipId), session.value, target);
        && r == RequestReply(sent.0)
        && friends == sent.1
        && nextFriendshipId == old(nextFriendshipId) + (if sent.0 == Friends.RequestSent then 1 else 0)
    {
      if session.None? {
        return RequestLoginRequired;
      }
      var sent := Friends.SendRequest(users, friends, nextFriendshipId, session.value, target);
      Friends.SendKeepsInvariants(users, friends, nextFriendshipId, session.value, target);
      friends := sent.1;
      if sent.0 == Friends.RequestSent {
        nextFriendshipId := nextFriendshipId + 1;
      }
      r := RequestReply(sent.0);
    }

    /** `respond_request`: the recipient accepts or rejects request `requestId`. */
    method RespondRequest(session: Option<Id>, requestId: Id, action: string) returns (r: RespondReply)
      requires Valid()
      modifies this`friends
      ensures Valid()
      ensures session.None? ==> r == RespondLoginRequired && friends == old(friends)
      ensures session.Some? ==>
        r == BackToFriends && friends == Friends.Respond(old(friends), session.value, requestId, action)
    {
      if session.None? {
        return RespondLoginRequired;
      }
      Friends.RespondKeepsInvariants(friends, session.value, requestId, action, nextFriendshipId);
      friends := Friends.Respond(friends, session.value, requestId, action);
      r := BackToFriends;
    }
  }
}
