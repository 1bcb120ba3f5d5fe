/** The statements that change experience points and levels: the lazy
    per-user reset of `home`, the global reset of the daily job, and the
    credit and one-shot level-up of a focused `end_timer`. */
module Xp {
  import opened Tables
  import Rows

  /** XP at or above which an ending focused session grants a level. */
  const LevelUpXp: int := 50

  /** The columns no XP statement touches. */
  predicate SameAccount(a: User, b: User) {
    a.id == b.id && a.username == b.username && a.passwordHash == b.passwordHash
  }

  /** Row by row, `b` is `a` with at most XP, level and reset date changed. */
  predicate SameAccounts(a: seq<User>, b: seq<User>) {
    |a| == |b| && forall i :: 0 <= i < |a| ==> SameAccount(a[i], b[i])
  }

  /** `last_xp_update IS NULL OR last_xp_update < today`. */
  predicate Stale(u: User, today: Date) {
    u.lastXpUpdate.None? || u.lastXpUpdate.value < today
  }

  /** `UPDATE users SET xp = 0`: the daily job, for every user whatever
      their reset date. */
  function ResetAll(us: seq<User>): (r: seq<User>)
    ensures SameAccounts(us, r)
    ensures forall i :: 0 <= i < |us| ==>
      r[i].xp == 0 && r[i].level == us[i].level && r[i].lastXpUpdate == us[i].lastXpUpdate
  {
    Rows.Update(us, (u: User) => true, (u: User) => u.(xp := 0))
  }

  /** `UPDATE users SET xp = 0, last_xp_update = today WHERE id = actor AND
      (last_xp_update IS NULL OR last_xp_update < today)`. */
  function LazyReset(us: seq<User>, actor: Id, today: Date): (r: seq<User>)
    ensures SameAccounts(us, r)
    ensures forall i :: 0 <= i < |us| && us[i].id == actor && Stale(us[i], today) ==>
      r[i].xp == 0 && r[i].lastXpUpdate == Some(today) && r[i].level == us[i].level
    ensures forall i :: 0 <= i < |us| && !(us[i].id == actor && Stale(us[i], today)) ==>
      r[i] == us[i]
    ensures forall i :: 0 <= i < |us| && r[i].id == actor ==> !Stale(r[i], today)
  {
    Rows.Update(us, (u: User) => u.id == actor && Stale(u, today),
                    (u: User) => u.(xp := 0, lastXpUpdate := Some(today)))
  }

  /** `UPDATE users SET xp = xp + minutes WHERE id = actor`. */
  function CreditXp(us: seq<User>, actor: Id, minutes: int): (r: seq<User>)
    ensures SameAccounts(us, r)
    ensures forall i :: 0 <= i < |us| && us[i].id == actor ==>
      r[i].xp == us[i].xp + minutes && r[i].level == us[i].level && r[i].lastXpUpdate == us[i].lastXpUpdate
    ensures forall i :: 0 <= i < |us| && us[i].id != actor ==> r[i] == us[i]
  {
    Rows.Update(us, (u: User) => u.id == actor, (u: User) => u.(xp := u.xp + minutes))
  }

  /** `UPDATE users SET level = level + 1 WHERE xp >= 50 AND id = actor`. */
  function LevelUp(us: seq<User>, actor: Id): (r: seq<User>)
    ensures SameAccounts(us, r)
    ensures forall i :: 0 <= i < |us| && us[i].id == actor && us[i].xp >= LevelUpXp ==>
      r[i].level == us[i].level + 1 && r[i].xp == us[i].xp && r[i].lastXpUpdate == us[i].lastXpUpdate
    ensures forall i :: 0 <= i < |us| && !(us[i].id == actor && us[i].xp >= LevelUpXp) ==> r[i] == us[i]
  {
    Rows.Update(us, (u: User) => u.xp >= LevelUpXp && u.id == actor, (u: User) => u.(level := u.level + 1))
  }

  /** The two statements of a focused `end_timer`, in order: credit the
      minutes, then grant one level if the new XP reaches the threshold,
      even when the XP was already past it before. At most one level per
      call, however many minutes. */
  function FocusReward(us: seq<User>, actor: Id, minutes: int): (r: seq<User>)
    ensures SameAccounts(us, r)
    ensures forall i :: 0 <= i < |us| && us[i].id == actor ==>
      && r[i].xp == us[i].xp + minutes
      && r[i].level == us[i].level + (if us[i].xp + minutes >= LevelUpXp then 1 else 0)
      && r[i].lastXpUpdate == us[i].lastXpUpdate
    ensures forall i :: 0 <= i < |us| && us[i].id != actor ==> r[i] == us[i]
  {
    LevelUp(CreditXp(us, actor, minutes), actor)
  }

  /** Running the lazy reset a second time on the same day changes nothing. */
  lemma LazyResetIdempotent(us: seq<User>, actor: Id, today: Date)
    ensures LazyReset(LazyReset(us, actor, today), actor, today) == LazyReset(us, actor, today)
  {
    var once := LazyReset(us, actor, today);
    var twice := LazyReset(once, actor, today);
    forall i | 0 <= i < |us| ensures twice[i] == once[i] {
      assert !(once[i].id == actor && Stale(once[i], today));
    }
  }

  /** The user rows' keys (id and username) survive any XP statement. */
  lemma AccountKeysCarry(us: seq<User>, r: seq<User>, next: nat)
    requires SameAccounts(us, r)
    requires Rows.DistinctKeys(us, UserKey) && Rows.KeysBelow(us, UserKey, next)
    requires Rows.DistinctKeys(us, UsernameKey)
    ensures Rows.DistinctKeys(r, UserKey) && Rows.KeysBelow(r, UserKey, next)
    ensures Rows.DistinctKeys(r, UsernameKey)
  {
    forall i, j | 0 <= i < j < |r| ensures UserKey(r[i]) != UserKey(r[j]) && UsernameKey(r[i]) != UsernameKey(r[j]) {
      assert UserKey(us[i]) != UserKey(us[j]) && UsernameKey(us[i]) != UsernameKey(us[j]);
    }
    forall x | x in r ensures UserKey(x) < next {
      var i :| 0 <= i < |r| && r[i] == x;
      assert us[i] in us;
    }
  }

  /** Levels only grow: no XP statement lowers a level, so "level >= 1"
      holds of every user once it holds of every new one. */
  lemma LevelsStayPositive(us: seq<User>, actor: Id, minutes: int, today: Date)
    requires forall u :: u in us ==> u.level >= 1
    ensures forall u :: u in ResetAll(us) ==> u.level >= 1
    ensures forall u :: u in LazyReset(us, actor, today) ==> u.level >= 1
    ensures forall u :: u in FocusReward(us, actor, minutes) ==> u.level >= 1
  {
    forall i | 0 <= i < |us| ensures us[i].level >= 1 {
      assert us[i] in us;
    }
  }

  /** XP stays non-negative under every XP statement as long as the
      minutes credited are not negative; the handler itself does not check
      the sign of the minutes it is sent. */
  lemma XpStaysNonNegative(us: seq<User>, actor: Id, minutes: int, today: Date)
    requires forall u :: u in us ==> u.xp >= 0
    requires minutes >= 0
    ensures forall u :: u in ResetAll(us) ==> u.xp >= 0
    ensures forall u :: u in LazyReset(us, actor, today) ==> u.xp >= 0
    ensures forall u :: u in FocusReward(us, actor, minutes) ==> u.xp >= 0
  {
    forall i | 0 <= i < |us| ensures us[i].xp >= 0 {
      assert us[i] in us;
    }
  }

  /** A negative minutes value is credited as it is, and drives XP below zero. */
  lemma NegativeMinutesLowerXp(us: seq<User>, i: nat, minutes: int)
    requires i < |us| && us[i].xp == 0 && minutes < 0
    ensures FocusReward(us, us[i].id, minutes)[i].xp < 0
  {
  }

  /** One focused 50-minute session from zero XP grants exactly one level. */
  lemma FiftyMinutesFromZero(us: seq<User>, i: nat)
    requires i < |us| && us[i].xp == 0
    ensures FocusReward(us, us[i].id, 50)[i].level == us[i].level + 1
  {
  }

  /** Two focused 30-minute sessions from zero XP (0, then 30, then 60) grant
      one level in all: only the second one reaches the threshold. */
  lemma TwoThirtyMinuteSessions(us: seq<User>, i: nat)
    requires i < |us| && us[i].xp == 0
    ensures var once := FocusReward(us, us[i].id, 30);
            once[i].level == us[i].level &&
            FocusReward(once, us[i].id, 30)[i].xp == 60 &&
            FocusReward(once, us[i].id, 30)[i].level == us[i].level + 1
  {
    var once := FocusReward(us, us[i].id, 30);
    assert once[i].id == us[i].id;
  }

  /** Once XP is past the threshold, every further focused session grants a
      level, even one of zero minutes. */
  lemma PastThresholdEverySessionLevels(us: seq<User>, i: nat, minutes: int)
    requires i < |us| && us[i].xp >= LevelUpXp && minutes >= 0
    ensures FocusReward(us, us[i].id, minutes)[i].level == us[i].level + 1
  {
  }
}
