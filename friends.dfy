/** The friendship routes: `friends_page`, `add_friend_by_code`,
    `respond_request` and `friend_tasks`. An undirected relationship is
    stored as one directed row from the requester (`userId`) to the
    recipient (`friendId`), and is looked up in either direction. */
module Friends {
  import opened Tables
  import Rows
  import Tasks

  /** The unordered pair of users a row connects. */
  function Endpoints(f: Friendship): set<int> {
    {f.userId, f.friendId}
  }

  /** `(user_id = a AND friend_id = b) OR (user_id = b AND friend_id = a)`. */
  predicate Links(f: Friendship, a: int, b: int) {
    (f.userId == a && f.friendId == b) || (f.userId == b && f.friendId == a)
  }

  /** Some row, pending or accepted, connects `a` and `b` in either direction. */
  predicate Related(fs: seq<Friendship>, a: int, b: int) {
    exists f :: f in fs && Links(f, a, b)
  }

  /** At most one row connects any unordered pair of users. */
  predicate OnePerPair(fs: seq<Friendship>) {
    Rows.DistinctKeys(fs, Endpoints)
  }

  /** The either-direction test is exactly "the row connects the pair {a, b}". */
  lemma LinksIsSamePair(f: Friendship, a: int, b: int)
    ensures Links(f, a, b) <==> Endpoints(f) == {a, b}
  {
    if Endpoints(f) == {a, b} {
      assert a in Endpoints(f) && b in Endpoints(f);
      assert f.userId in {a, b} && f.friendId in {a, b};
    }
  }

  /** `SELECT id FROM users WHERE id = target` returns a row. */
  predicate UserExists(us: seq<User>, target: int) {
    exists u :: u in us && u.id == target
  }

  datatype RequestOutcome = UserNotFound | AlreadyRelated | RequestSent

  /** `add_friend_by_code` from `actor` to `target`, with `nextId` the
      counter of `friends`: the outcome and the new `friends` table. */
  function SendRequest(us: seq<User>, fs: seq<Friendship>, nextId: Id, actor: Id, target: int)
    : (r: (RequestOutcome, seq<Friendship>))
    ensures r.0 == UserNotFound <==> !UserExists(us, target)
    ensures r.0 == AlreadyRelated <==> UserExists(us, target) && Related(fs, actor, target)
    ensures r.0 != RequestSent ==> r.1 == fs
    ensures r.0 == RequestSent ==> target >= 0 && r.1 == fs + [Friendship(nextId, actor, target, Pending)]
  {
    if !UserExists(us, target) then (UserNotFound, fs)
    else if Related(fs, actor, target) then (AlreadyRelated, fs)
    else (RequestSent, fs + [Friendship(nextId, actor, target as nat, Pending)])
  }

  /** A sent request keeps at most one row per pair, and keeps the
      friendship ids unique and below the advanced counter. */
  lemma SendKeepsInvariants(us: seq<User>, fs: seq<Friendship>, nextId: Id, actor: Id, target: int)
    requires OnePerPair(fs)
    requires Rows.DistinctKeys(fs, FriendshipKey) && Rows.KeysBelow(fs, FriendshipKey, nextId)
    ensures var r := SendRequest(us, fs, nextId, actor, target);
      && OnePerPair(r.1)
      && Rows.DistinctKeys(r.1, FriendshipKey)
      && Rows.KeysBelow(r.1, FriendshipKey, if r.0 == RequestSent then nextId + 1 else nextId)
  {
    var r := SendRequest(us, fs, nextId, actor, target);
    if r.0 == RequestSent {
      var f := Friendship(nextId, actor, target, Pending);
      forall y | y in fs ensures Endpoints(y) != Endpoints(f) {
        LinksIsSamePair(y, actor, target);
      }
      Rows.AppendDistinct(fs, f, Endpoints);
      Rows.AppendFresh(fs, f, FriendshipKey, nextId);
    }
  }

  /** The row `SELECT ... FROM friends WHERE id = requestId` returns
      (`fetchone`), taken as the first in storage order. */
  function Lookup(fs: seq<Friendship>, requestId: Id): (r: Option<Friendship>)
    ensures r.Some? ==> r.value in fs && r.value.id == requestId
    ensures r.None? <==> forall f :: f in fs ==> f.id != requestId
  {
    if fs == [] then None
    else if fs[0].id == requestId then Some(fs[0])
    else Lookup(fs[1..], requestId)
  }

  /** `UPDATE friends SET status = 'accepted' WHERE id = requestId`. */
  function Accept(fs: seq<Friendship>, requestId: Id): (r: seq<Friendship>)
    ensures |r| == |fs|
    ensures forall i :: 0 <= i < |fs| ==>
      r[i].id == fs[i].id && r[i].userId == fs[i].userId && r[i].friendId == fs[i].friendId
    ensures forall i :: 0 <= i < |fs| ==>
      r[i].status == if fs[i].id == requestId then Accepted else fs[i].status
  {
    Rows.Update(fs, (f: Friendship) => f.id == requestId, (f: Friendship) => f.(status := Accepted))
  }

  /** Rows kept by `DELETE FROM friends WHERE id = requestId`. */
  function IdIsNot(requestId: Id): Friendship -> bool {
    (f: Friendship) => f.id != requestId
  }

  /** `DELETE FROM friends WHERE id = requestId`. */
  function Reject(fs: seq<Friendship>, requestId: Id): (r: seq<Friendship>)
    ensures |r| <= |fs|
    ensures forall f :: f in r <==> f in fs && f.id != requestId
    ensures forall f :: multiset(r)[f] == if f.id != requestId then multiset(fs)[f] else 0
  {
    Rows.FilterCounts(fs, IdIsNot(requestId));
    Rows.Filter(fs, IdIsNot(requestId))
  }

  /** `respond_request`: only when the row exists and the acting user is
      its recipient does `accept` mark it accepted and `reject` delete it;
      any other caller or action leaves the table as it is. */
  function Respond(fs: seq<Friendship>, actor: Id, requestId: Id, action: string): (r: seq<Friendship>)
    ensures r == fs || (action == "accept" && r == Accept(fs, requestId))
                    || (action == "reject" && r == Reject(fs, requestId))
    ensures action != "accept" && action != "reject" ==> r == fs
    ensures (forall f :: f in fs && f.id == requestId ==> f.friendId != actor) ==> r == fs
    ensures Rows.DistinctKeys(fs, FriendshipKey) ==>
      forall f :: f in fs && f.id == requestId && f.friendId == actor ==>
        r == (if action == "accept" then Accept(fs, requestId)
              else if action == "reject" then Reject(fs, requestId)
              else fs)
  {
    match Lookup(fs, requestId)
    case None => fs
    case Some(req) =>
      assert Rows.DistinctKeys(fs, FriendshipKey) ==>
        forall f :: f in fs && f.id == requestId ==> f == req by {
        if Rows.DistinctKeys(fs, FriendshipKey) {
          forall f | f in fs && f.id == requestId ensures f == req {
            Rows.SameKeySameRow(fs, FriendshipKey, f, req);
          }
        }
      }
      if req.friendId == actor then
        if action == "accept" then Accept(fs, requestId)
        else if action == "reject" then Reject(fs, requestId)
        else fs
      else fs
  }

  /** A response keeps at most one row per pair and keeps the friendship
      ids unique and below the counter. */
  lemma RespondKeepsInvariants(fs: seq<Friendship>, actor: Id, requestId: Id, action: string, next: nat)
    requires OnePerPair(fs)
    requires Rows.DistinctKeys(fs, FriendshipKey) && Rows.KeysBelow(fs, FriendshipKey, next)
    ensures OnePerPair(Respond(fs, actor, requestId, action))
    ensures Rows.DistinctKeys(Respond(fs, actor, requestId, action), FriendshipKey)
    ensures Rows.KeysBelow(Respond(fs, actor, requestId, action), FriendshipKey, next)
  {
    var r := Respond(fs, actor, requestId, action);
    if r == Reject(fs, requestId) {
      Rows.FilterDistinct(fs, IdIsNot(requestId), Endpoints);
      Rows.FilterDistinct(fs, IdIsNot(requestId), FriendshipKey);
    } else if r == Accept(fs, requestId) {
      forall i, j | 0 <= i < j < |r|
        ensures Endpoints(r[i]) != Endpoints(r[j]) && FriendshipKey(r[i]) != FriendshipKey(r[j])
      {
        assert Endpoints(fs[i]) != Endpoints(fs[j]) && FriendshipKey(fs[i]) != FriendshipKey(fs[j]);
      }
      forall x | x in r ensures FriendshipKey(x) < next {
        var i :| 0 <= i < |r| && r[i] == x;
        assert fs[i] in fs;
      }
    }
  }

  /** One incoming request as `friends_page` lists it: the row id and the
      requester's username. */
  datatype IncomingRequest = IncomingRequest(requestId: Id, fromUsername: string)

  /** One accepted friend as `friends_page` lists it. */
  datatype FriendEntry = FriendEntry(userId: Id, username: string)

  /** The ON and WHERE conditions of the incoming-requests join. */
  function IncomingOn(actor: Id): (Friendship, User) -> bool {
    (f: Friendship, u: User) => f.userId == u.id && f.friendId == actor && f.status == Pending
  }

  /** The columns the incoming-requests join selects. */
  function IncomingOut(): (Friendship, User) -> IncomingRequest {
    (f: Friendship, u: User) => IncomingRequest(f.id, u.username)
  }

  /** `SELECT f.id, u.username FROM friends f JOIN users u ON f.user_id = u.id
      WHERE f.friend_id = actor AND f.status = 'pending'`. Under the primary
      keys, each request is listed once. */
  function Incoming(us: seq<User>, fs: seq<Friendship>, actor: Id): (r: seq<IncomingRequest>)
    ensures forall e :: e in r <==>
      exists f, u :: f in fs && u in us && f.friendId == actor && f.status == Pending &&
        f.userId == u.id && e == IncomingRequest(f.id, u.username)
    ensures Rows.DistinctKeys(fs, FriendshipKey) && Rows.DistinctKeys(us, UserKey) ==> Rows.NoDuplicates(r)
  {
    assert Rows.DistinctKeys(fs, FriendshipKey) && Rows.DistinctKeys(us, UserKey) ==>
      Rows.NoDuplicates(Rows.Join(fs, us, IncomingOn(actor), IncomingOut())) by {
      if Rows.DistinctKeys(fs, FriendshipKey) && Rows.DistinctKeys(us, UserKey) {
        IncomingOnce(us, fs, actor);
      }
    }
    Rows.Join(fs, us, IncomingOn(actor), IncomingOut())
  }

  /** Distinct matching pairs of the incoming-requests join give distinct
      rows, so the join lists each request once. */
  lemma IncomingOnce(us: seq<User>, fs: seq<Friendship>, actor: Id)
    requires Rows.DistinctKeys(fs, FriendshipKey) && Rows.DistinctKeys(us, UserKey)
    ensures Rows.NoDuplicates(Rows.Join(fs, us, IncomingOn(actor), IncomingOut()))
  {
    var on, out := IncomingOn(actor), IncomingOut();
    Rows.DistinctKeysNoDuplicates(fs, FriendshipKey);
    Rows.DistinctKeysNoDuplicates(us, UserKey);
    forall f, u, f', u' | f in fs && u in us && f' in fs && u' in us && on(f, u) && on(f', u') && out(f, u) == out(f', u')
      ensures f == f' && u == u'
    {
      Rows.SameKeySameRow(fs, FriendshipKey, f, f');
      Rows.SameKeySameRow(us, UserKey, u, u');
    }
    Rows.JoinNoDuplicates(fs, us, on, out);
  }

  /** The ON and WHERE conditions of the friend-list join: an accepted row
      with the actor on either side. */
  function FriendOn(actor: Id): (User, Friendship) -> bool {
    (u: User, f: Friendship) => f.status == Accepted && Links(f, u.id, actor)
  }

  /** The columns the friend-list join selects. */
  function FriendOut(): (User, Friendship) -> FriendEntry {
    (u: User, f: Friendship) => FriendEntry(u.id, u.username)
  }

  /** `SELECT u.id, u.username FROM users u JOIN friends f ON ((f.user_id = u.id
      AND f.friend_id = actor) OR (f.friend_id = u.id AND f.user_id = actor))
      WHERE f.status = 'accepted'`: the friends on either side of a row.
      Under unique user ids and one row per pair, each friend is listed once. */
  function FriendList(us: seq<User>, fs: seq<Friendship>, actor: Id): (r: seq<FriendEntry>)
    ensures forall e :: e in r <==>
      exists u, f :: u in us && f in fs && f.status == Accepted && Links(f, u.id, actor) &&
        e == FriendEntry(u.id, u.username)
    ensures Rows.DistinctKeys(us, UserKey) && OnePerPair(fs) ==> Rows.NoDuplicates(r)
  {
    assert Rows.DistinctKeys(us, UserKey) && OnePerPair(fs) ==>
      Rows.NoDuplicates(Rows.Join(us, fs, FriendOn(actor), FriendOut())) by {
      if Rows.DistinctKeys(us, UserKey) && OnePerPair(fs) {
        FriendListOnce(us, fs, actor);
      }
    }
    Rows.Join(us, fs, FriendOn(actor), FriendOut())
  }

  /** Distinct matching pairs of the friend-list join give distinct rows:
      a friend's id fixes the user, and the pair fixes the friendship row. */
  lemma FriendListOnce(us: seq<User>, fs: seq<Friendship>, actor: Id)
    requires Rows.DistinctKeys(us, UserKey) && OnePerPair(fs)
    ensures Rows.NoDuplicates(Rows.Join(us, fs, FriendOn(actor), FriendOut()))
  {
    var on, out := FriendOn(actor), FriendOut();
    Rows.DistinctKeysNoDuplicates(us, UserKey);
    Rows.DistinctKeysNoDuplicates(fs, Endpoints);
    forall u, f, u', f' | u in us && f in fs && u' in us && f' in fs && on(u, f) && on(u', f') && out(u, f) == out(u', f')
      ensures u == u' && f == f'
    {
      Rows.SameKeySameRow(us, UserKey, u, u');
      LinksIsSamePair(f, u.id, actor);
      LinksIsSamePair(f', u.id, actor);
      Rows.SameKeySameRow(fs, Endpoints, f, f');
    }
    Rows.JoinNoDuplicates(us, fs, on, out);
  }

  /** Friendship as listed is symmetric: `b` is on `a`'s list exactly when
      `a` is on `b`'s, whichever of the two sent the request. */
  lemma FriendListSymmetric(us: seq<User>, fs: seq<Friendship>, ua: User, ub: User)
    requires ua in us && ub in us
    ensures FriendEntry(ub.id, ub.username) in FriendList(us, fs, ua.id) <==>
            FriendEntry(ua.id, ua.username) in FriendList(us, fs, ub.id)
  {
    if FriendEntry(ub.id, ub.username) in FriendList(us, fs, ua.id) {
      var u, f :| u in us && f in fs && f.status == Accepted && Links(f, u.id, ua.id) &&
        FriendEntry(ub.id, ub.username) == FriendEntry(u.id, u.username);
      assert Links(f, ua.id, ub.id);
    }
    if FriendEntry(ua.id, ua.username) in FriendList(us, fs, ub.id) {
      var u, f :| u in us && f in fs && f.status == Accepted && Links(f, u.id, ub.id) &&
        FriendEntry(ua.id, ua.username) == FriendEntry(u.id, u.username);
      assert Links(f, ub.id, ua.id);
    }
  }

  datatype FriendsView =
    | FriendsLoginRequired
    | FriendsPage(incoming: seq<IncomingRequest>, friends: seq<FriendEntry>)

  /** `friends_page` for the session's user, if any. */
  function ShowFriends(session: Option<Id>, us: seq<User>, fs: seq<Friendship>): (r: FriendsView)
    ensures session.None? <==> r.FriendsLoginRequired?
    ensures session.Some? ==>
      (forall e :: e in r.incoming <==>
        exists f, u :: f in fs && u in us && f.friendId == session.value && f.status == Pending &&
          f.userId == u.id && e == IncomingRequest(f.id, u.username)) &&
      (forall e :: e in r.friends <==>
        exists u, f :: u in us && f in fs && f.status == Accepted && Links(f, u.id, session.value) &&
          e == FriendEntry(u.id, u.username))
    ensures session.Some? && Rows.DistinctKeys(fs, FriendshipKey) && Rows.DistinctKeys(us, UserKey) ==>
      Rows.NoDuplicates(r.incoming)
    ensures session.Some? && Rows.DistinctKeys(us, UserKey) && OnePerPair(fs) ==> Rows.NoDuplicates(r.friends)
  {
    match session
    case None => FriendsLoginRequired
    case Some(actor) => FriendsPage(Incoming(us, fs, actor), FriendList(us, fs, actor))
  }

  datatype FriendTasksView =
    | TasksLoginRequired
    | NotFriends
    | FriendTaskList(tasks: seq<Task>)

  /** `friend_tasks`: any row between the two users, pending or accepted,
      opens the friend's whole task list for reading. */
  function FriendTasks(session: Option<Id>, fs: seq<Friendship>, ts: seq<Task>, friendId: Id): (r: FriendTasksView)
    ensures session.None? <==> r.TasksLoginRequired?
    ensures session.Some? ==> (r.NotFriends? <==> !Related(fs, session.value, friendId))
    ensures r.FriendTaskList? ==> |r.tasks| <= |ts|
    ensures r.FriendTaskList? ==> forall t :: t in r.tasks <==> t in ts && t.userId == friendId
    ensures r.FriendTaskList? ==>
      forall t :: multiset(r.tasks)[t] == if t.userId == friendId then multiset(ts)[t] else 0
  {
    match session
    case None => TasksLoginRequired
    case Some(actor) =>
      if Related(fs, actor, friendId) then FriendTaskList(Tasks.TasksOf(ts, friendId)) else NotFriends
  }

  /** A request still pending already grants the requester read access to
      the recipient's tasks, and the recipient to the requester's. */
  lemma PendingGrantsTaskAccess(fs: seq<Friendship>, ts: seq<Task>, f: Friendship)
    requires f in fs && f.status == Pending
    ensures FriendTasks(Some(f.userId), fs, ts, f.friendId).FriendTaskList?
    ensures FriendTasks(Some(f.friendId), fs, ts, f.userId).FriendTaskList?
  {
    assert Links(f, f.userId, f.friendId) && Links(f, f.friendId, f.userId);
  }

  /** Nothing stops a request to oneself: with the actor's own id as target
      and no row on the pair yet, a pending self-request is stored. */
  lemma SelfRequestIsStored(us: seq<User>, fs: seq<Friendship>, nextId: Id, actor: User)
    requires actor in us && !Related(fs, actor.id, actor.id)
    ensures SendRequest(us, fs, nextId, actor.id, actor.id).0 == RequestSent
  {
  }

  /** The recipient can also "reject" a friendship already accepted, which
      deletes it. */
  lemma RejectEndsAcceptedFriendship(fs: seq<Friendship>, f: Friendship)
    requires Rows.DistinctKeys(fs, FriendshipKey)
    requires f in fs && f.status == Accepted
    ensures f !in Respond(fs, f.friendId, f.id, "reject")
  {
  }
}
