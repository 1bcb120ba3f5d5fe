/** The rows `start_timer` inserts and the statement `end_timer` runs on
    `sessions`. */
module Timers {
  import opened Tables
  import Rows

  /** The row `INSERT INTO sessions (user_id, start_time)` creates: open,
      with no end, no verdict and no reason yet. */
  function OpenSession(id: Id, owner: Id, startedAt: Timestamp): FocusSession {
    FocusSession(id, owner, startedAt, None, None, None)
  }

  /** The WHERE clause of `end_timer`: this session id, this owner. */
  predicate OwnedSession(s: FocusSession, sessionId: Id, actor: Id) {
    s.id == sessionId && s.userId == actor
  }

  /** `UPDATE sessions SET end_time = endedAt, focused = focused, reason = reason
      WHERE id = sessionId AND user_id = actor`. */
  function Close(ss: seq<FocusSession>, sessionId: Id, actor: Id, endedAt: Timestamp, focused: bool, reason: string)
    : (r: seq<FocusSession>)
    ensures |r| == |ss|
    ensures forall i :: 0 <= i < |ss| ==>
      r[i].id == ss[i].id && r[i].userId == ss[i].userId && r[i].startTime == ss[i].startTime
    ensures forall i :: 0 <= i < |ss| && OwnedSession(ss[i], sessionId, actor) ==>
      r[i].endTime == Some(endedAt) && r[i].focused == Some(focused) && r[i].reason == Some(reason)
    ensures forall i :: 0 <= i < |ss| && !OwnedSession(ss[i], sessionId, actor) ==> r[i] == ss[i]
  {
    Rows.Update(ss, (s: FocusSession) => OwnedSession(s, sessionId, actor),
                    (s: FocusSession) => s.(endTime := Some(endedAt), focused := Some(focused), reason := Some(reason)))
  }

  /** Ending someone else's session, or one that does not exist, leaves
      the table as it is. */
  lemma CloseForeignIsNoop(ss: seq<FocusSession>, sessionId: Id, actor: Id, endedAt: Timestamp, focused: bool, reason: string)
    requires forall s :: s in ss ==> !OwnedSession(s, sessionId, actor)
    ensures Close(ss, sessionId, actor, endedAt, focused, reason) == ss
  {
    var r := Close(ss, sessionId, actor, endedAt, focused, reason);
    forall i | 0 <= i < |ss| ensures r[i] == ss[i] {
      assert ss[i] in ss;
    }
  }

  /** Closing keeps the primary key unique and below the counter. */
  lemma CloseKeepsKeys(ss: seq<FocusSession>, sessionId: Id, actor: Id, endedAt: Timestamp, focused: bool, reason: string, next: nat)
    requires Rows.DistinctKeys(ss, SessionKey) && Rows.KeysBelow(ss, SessionKey, next)
    ensures Rows.DistinctKeys(Close(ss, sessionId, actor, endedAt, focused, reason), SessionKey)
    ensures Rows.KeysBelow(Close(ss, sessionId, actor, endedAt, focused, reason), SessionKey, next)
  {
    var r := Close(ss, sessionId, actor, endedAt, focused, reason);
    forall i, j | 0 <= i < j < |r| ensures SessionKey(r[i]) != SessionKey(r[j]) {
      assert SessionKey(ss[i]) != SessionKey(ss[j]);
    }
    forall x | x in r ensures SessionKey(x) < next {
      var i :| 0 <= i < |r| && r[i] == x;
      assert ss[i] in ss;
    }
  }
}
