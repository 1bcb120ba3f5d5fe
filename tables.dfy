/** The rows of the application's five tables. Column defaults that the
    INSERT statements rely on (xp 0, level 1, last_xp_update NULL,
    completed false) are made explicit by the constructors below. */
module Tables {

  datatype Option<+T> = None | Some(value: T)

  /** The value of an AUTO_INCREMENT primary key. */
  type Id = nat

  /** A calendar day (`CURDATE()`), ordered as the days are. */
  type Date = int

  /** A `datetime.now()` instant; the model only stores it. */
  type Timestamp = int

  /** A row of `users`. `passwordHash` is whatever the password hasher produced. */
  datatype User = User(
    id: Id,
    username: string,
    passwordHash: string,
    xp: int,
    level: int,
    lastXpUpdate: Option<Date>)

  /** A row of `tasks`, owned by the user `userId`. */
  datatype Task = Task(id: Id, userId: Id, description: string, completed: bool)

  /** A row of `sessions`: one focus timer, open until `endTime` is set. */
  datatype FocusSession = FocusSession(
    id: Id,
    userId: Id,
    startTime: Timestamp,
    endTime: Option<Timestamp>,
    focused: Option<bool>,
    reason: Option<string>)

  /** A row of `shared_timers`. `friendId` is stored as the form sent it,
      without a check that it names a user or a friend. */
  datatype SharedTimer = SharedTimer(id: Id, userId: Id, friendId: int, startTime: Timestamp, minutes: int)

  datatype Status = Pending | Accepted

  /** A row of `friends`: a directed request from `userId` to `friendId`
      that stands for an undirected relationship. */
  datatype Friendship = Friendship(id: Id, userId: Id, friendId: Id, status: Status)

  /** The row `INSERT INTO users (username, password)` creates. */
  function NewUser(id: Id, username: string, passwordHash: string): User {
    User(id, username, passwordHash, 0, 1, None)
  }

  /** The row `INSERT INTO tasks (user_id, description)` creates. */
  function NewTask(id: Id, owner: Id, description: string): Task {
    Task(id, owner, description, false)
  }

  // Primary and unique keys, as functions for Rows.DistinctKeys and Rows.KeysBelow.

  function UserKey(u: User): nat { u.id }
  function UsernameKey(u: User): string { u.username }
  function TaskKey(t: Task): nat { t.id }
  function SessionKey(s: FocusSession): nat { s.id }
  function TimerKey(t: SharedTimer): nat { t.id }
  function FriendshipKey(f: Friendship): nat { f.id }
}
