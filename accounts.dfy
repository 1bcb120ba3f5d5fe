/** The lookups of `signup` and `login`. Password hashing is outside the
    model: `signup` is handed the hash the hasher produced, and `login` is
    handed the hasher's check as a function. */
module Accounts {
  import opened Tables
  import Rows

  /** The UNIQUE constraint the signup check upholds. */
  predicate UniqueUsernames(us: seq<User>) {
    Rows.DistinctKeys(us, UsernameKey)
  }

  /** `SELECT id FROM users WHERE username = name` returns a row. */
  predicate UsernameTaken(us: seq<User>, name: string) {
    exists u :: u in us && u.username == name
  }

  /** The row `SELECT ... FROM users WHERE username = name` returns
      (`fetchone`); any matching row is one the database may return, and
      the model takes the first in storage order. */
  function FindByUsername(us: seq<User>, name: string): (r: Option<User>)
    ensures r.None? <==> !UsernameTaken(us, name)
    ensures r.Some? ==> r.value in us && r.value.username == name
  {
    if us == [] then None
    else if us[0].username == name then Some(us[0])
    else FindByUsername(us[1..], name)
  }

  datatype LoginOutcome = LoggedIn(userId: Id, username: string) | InvalidCredentials

  /** `login`: look the username up and check the password against the
      stored hash; on success the session is bound to the row's id and the
      username. */
  function Login(us: seq<User>, name: string, password: string, checkHash: (string, string) -> bool): (r: LoginOutcome)
    ensures r.LoggedIn? ==>
      r.username == name &&
      exists u :: u in us && u.id == r.userId && u.username == name && checkHash(u.passwordHash, password)
    ensures !UsernameTaken(us, name) ==> r == InvalidCredentials
    ensures UniqueUsernames(us) ==>
      (r.LoggedIn? <==> exists u :: u in us && u.username == name && checkHash(u.passwordHash, password))
  {
    match FindByUsername(us, name)
    case Some(u) =>
      if checkHash(u.passwordHash, password) then
        LoggedIn(u.id, name)
      else
        assert UniqueUsernames(us) ==> forall v :: v in us && v.username == name ==> v == u by {
          if UniqueUsernames(us) {
            forall v | v in us && v.username == name ensures v == u {
              Rows.SameKeySameRow(us, UsernameKey, u, v);
            }
          }
        }
        InvalidCredentials
    case None => InvalidCredentials
  }

  /** Signing up a fresh username keeps usernames unique, and logging in
      afterwards with a password the stored hash accepts succeeds with the
      new row's id; a password it rejects fails. */
  lemma SignupThenLogin(us: seq<User>, id: Id, name: string, hash: string, password: string,
                        checkHash: (string, string) -> bool)
    requires UniqueUsernames(us) && !UsernameTaken(us, name)
    ensures UniqueUsernames(us + [NewUser(id, name, hash)])
    ensures checkHash(hash, password) ==>
      Login(us + [NewUser(id, name, hash)], name, password, checkHash) == LoggedIn(id, name)
    ensures !checkHash(hash, password) ==>
      Login(us + [NewUser(id, name, hash)], name, password, checkHash) == InvalidCredentials
  {
    var t := us + [NewUser(id, name, hash)];
    Rows.AppendDistinct(us, NewUser(id, name, hash), UsernameKey);
    var found := FindByUsername(t, name);
    assert NewUser(id, name, hash) in t;
    Rows.SameKeySameRow(t, UsernameKey, found.value, NewUser(id, name, hash));
  }
}
