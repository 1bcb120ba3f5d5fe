/** The statements of the task routes (`home`'s listing, `add_task`,
    `toggle_task`, `delete_task`, `clear_tasks`, and the listing of
    `friend_tasks`). Every mutation is filtered by the acting user's id, so
    a foreign or unknown task id changes nothing. */
module Tasks {
  import opened Tables
  import Rows

  /** The WHERE clause of `toggle_task` and `delete_task`: this id, this owner. */
  predicate Owned(t: Task, taskId: Id, actor: Id) {
    t.id == taskId && t.userId == actor
  }

  /** Rows selected by `WHERE user_id = owner`. */
  function BelongsTo(owner: int): Task -> bool {
    (t: Task) => t.userId == owner
  }

  /** Rows kept by `DELETE FROM tasks WHERE user_id = owner`. */
  function NotBelongingTo(owner: int): Task -> bool {
    (t: Task) => t.userId != owner
  }

  /** Rows kept by `DELETE FROM tasks WHERE id = taskId AND user_id = actor`. */
  function NotOwned(taskId: Id, actor: Id): Task -> bool {
    (t: Task) => !Owned(t, taskId, actor)
  }

  /** `SELECT * FROM tasks WHERE user_id = owner`. */
  function TasksOf(ts: seq<Task>, owner: int): (r: seq<Task>)
    ensures |r| <= |ts|
    ensures forall t :: t in r <==> t in ts && t.userId == owner
    ensures forall t :: multiset(r)[t] == if t.userId == owner then multiset(ts)[t] else 0
  {
    Rows.FilterCounts(ts, BelongsTo(owner));
    Rows.Filter(ts, BelongsTo(owner))
  }

  /** `UPDATE tasks SET completed = NOT completed WHERE id = taskId AND user_id = actor`. */
  function Toggle(ts: seq<Task>, taskId: Id, actor: Id): (r: seq<Task>)
    ensures |r| == |ts|
    ensures forall i :: 0 <= i < |ts| ==>
      r[i].id == ts[i].id && r[i].userId == ts[i].userId && r[i].description == ts[i].description
    ensures forall i :: 0 <= i < |ts| ==>
      (r[i].completed != ts[i].completed <==> Owned(ts[i], taskId, actor))
  {
    Rows.Update(ts, t => Owned(t, taskId, actor), (t: Task) => t.(completed := !t.completed))
  }

  /** `DELETE FROM tasks WHERE id = taskId AND user_id = actor`. */
  function Delete(ts: seq<Task>, taskId: Id, actor: Id): (r: seq<Task>)
    ensures |r| <= |ts|
    ensures forall t :: t in r <==> t in ts && !Owned(t, taskId, actor)
    ensures forall t :: multiset(r)[t] == if Owned(t, taskId, actor) then 0 else multiset(ts)[t]
  {
    Rows.FilterCounts(ts, NotOwned(taskId, actor));
    Rows.Filter(ts, NotOwned(taskId, actor))
  }

  /** `DELETE FROM tasks WHERE user_id = actor`. */
  function Clear(ts: seq<Task>, actor: Id): (r: seq<Task>)
    ensures |r| <= |ts|
    ensures forall t :: t in r <==> t in ts && t.userId != actor
    ensures forall t :: multiset(r)[t] == if t.userId != actor then multiset(ts)[t] else 0
  {
    Rows.FilterCounts(ts, NotBelongingTo(actor));
    Rows.Filter(ts, NotBelongingTo(actor))
  }

  /** A toggle that no row matches (a foreign or unknown id) is a no-op. */
  lemma ToggleUnmatched(ts: seq<Task>, taskId: Id, actor: Id)
    requires forall t :: t in ts ==> !Owned(t, taskId, actor)
    ensures Toggle(ts, taskId, actor) == ts
  {
    var r := Toggle(ts, taskId, actor);
    forall i | 0 <= i < |ts| ensures r[i] == ts[i] {
      assert ts[i] in ts;
    }
  }

  /** Toggling the same task twice restores the table. */
  lemma ToggleTwice(ts: seq<Task>, taskId: Id, actor: Id)
    ensures Toggle(Toggle(ts, taskId, actor), taskId, actor) == ts
  {
    var once := Toggle(ts, taskId, actor);
    var twice := Toggle(once, taskId, actor);
    forall i | 0 <= i < |ts| ensures twice[i] == ts[i] {
      assert Owned(once[i], taskId, actor) == Owned(ts[i], taskId, actor);
    }
  }

  /** With task ids unique, a toggle flips at most one row. */
  lemma ToggleAtMostOne(ts: seq<Task>, taskId: Id, actor: Id)
    requires Rows.DistinctKeys(ts, TaskKey)
    ensures forall i, j :: 0 <= i < j < |ts| ==>
      Toggle(ts, taskId, actor)[i] == ts[i] || Toggle(ts, taskId, actor)[j] == ts[j]
  {
    var r := Toggle(ts, taskId, actor);
    forall i, j | 0 <= i < j < |ts| ensures r[i] == ts[i] || r[j] == ts[j] {
      assert TaskKey(ts[i]) != TaskKey(ts[j]);
      if r[i] != ts[i] {
        assert r[i].completed != ts[i].completed;
      }
    }
  }

  /** A toggle keeps the primary key unique and below the counter. */
  lemma ToggleKeepsKeys(ts: seq<Task>, taskId: Id, actor: Id, next: nat)
    requires Rows.DistinctKeys(ts, TaskKey) && Rows.KeysBelow(ts, TaskKey, next)
    ensures Rows.DistinctKeys(Toggle(ts, taskId, actor), TaskKey)
    ensures Rows.KeysBelow(Toggle(ts, taskId, actor), TaskKey, next)
  {
    var r := Toggle(ts, taskId, actor);
    forall i, j | 0 <= i < j < |r| ensures TaskKey(r[i]) != TaskKey(r[j]) {
      assert TaskKey(ts[i]) != TaskKey(ts[j]);
    }
    forall x | x in r ensures TaskKey(x) < next {
      var i :| 0 <= i < |r| && r[i] == x;
      assert ts[i] in ts;
    }
  }

  /** With task ids unique, a delete removes at most one row, and exactly
      none when no row matches both id and owner. */
  lemma DeleteAtMostOne(ts: seq<Task>, taskId: Id, actor: Id)
    requires Rows.DistinctKeys(ts, TaskKey)
    ensures |Delete(ts, taskId, actor)| + 1 >= |ts|
    ensures (forall t :: t in ts ==> !Owned(t, taskId, actor)) ==> Delete(ts, taskId, actor) == ts
  {
    Rows.FilterDropsAtMostOne(ts, NotOwned(taskId, actor), TaskKey, taskId);
    if forall t :: t in ts ==> !Owned(t, taskId, actor) {
      Rows.FilterKeepsAll(ts, NotOwned(taskId, actor));
    }
  }

  /** A delete keeps the primary key unique and below the counter. */
  lemma DeleteKeepsKeys(ts: seq<Task>, taskId: Id, actor: Id, next: nat)
    requires Rows.DistinctKeys(ts, TaskKey) && Rows.KeysBelow(ts, TaskKey, next)
    ensures Rows.DistinctKeys(Delete(ts, taskId, actor), TaskKey)
    ensures Rows.KeysBelow(Delete(ts, taskId, actor), TaskKey, next)
  {
    Rows.FilterDistinct(ts, NotOwned(taskId, actor), TaskKey);
  }

  /** Clearing leaves every other user's task list exactly as it was,
      rows and order alike. */
  lemma ClearKeepsOthers(ts: seq<Task>, actor: Id, other: int)
    requires other != actor
    ensures TasksOf(Clear(ts, actor), other) == TasksOf(ts, other)
  {
    Rows.FilterNarrow(ts, NotBelongingTo(actor), BelongsTo(other));
  }

  /** A clear keeps the primary key unique and below the counter. */
  lemma ClearKeepsKeys(ts: seq<Task>, actor: Id, next: nat)
    requires Rows.DistinctKeys(ts, TaskKey) && Rows.KeysBelow(ts, TaskKey, next)
    ensures Rows.DistinctKeys(Clear(ts, actor), TaskKey)
    ensures Rows.KeysBelow(Clear(ts, actor), TaskKey, next)
  {
    Rows.FilterDistinct(ts, NotBelongingTo(actor), TaskKey);
  }

  /** After an INSERT, the owner's list ends with the new task and every
      other user's list is unchanged. */
  lemma AddShowsNewTask(ts: seq<Task>, t: Task, owner: int)
    ensures TasksOf(ts + [t], owner) == TasksOf(ts, owner) + (if t.userId == owner then [t] else [])
  {
    Rows.FilterConcat(ts, [t], BelongsTo(owner));
    assert [t][1..] == [];
  }
}
