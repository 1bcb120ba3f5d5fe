/** `SELECT username, level, xp FROM users ORDER BY xp DESC LIMIT 10`.
    The database leaves the order of equal XP unspecified; the sort below
    keeps storage order among ties, which is one of the orders it may
    return. The descending, drawn-from-the-table and left-out-rank-lower
    properties hold whichever way ties are resolved; the row-by-row tie of
    the board to `TopByXp` fixes this one. */
module Leaderboard {
  import opened Tables

  /** How many rows the leaderboard shows at most. */
  const BoardSize: nat := 10

  /** XP never increases along the sequence. */
  predicate XpDescending(us: seq<User>) {
    forall i, j :: 0 <= i < j < |us| ==> us[i].xp >= us[j].xp
  }

  /** Insert `u` into a descending sequence, before the first row with XP no
      greater than its own. */
  function InsertByXp(u: User, s: seq<User>): (r: seq<User>)
    requires XpDescending(s)
    ensures XpDescending(r)
    ensures multiset(r) == multiset(s) + multiset{u}
    ensures |r| == |s| + 1
    ensures r[0] == u || (s != [] && r[0] == s[0])
  {
    if s == [] || s[0].xp <= u.xp then [u] + s
    else
      assert XpDescending(s[1..]) by { TailDescending(s); }
      var rest := InsertByXp(u, s[1..]);
      assert forall j :: 0 <= j < |rest| ==> rest[j].xp <= s[0].xp by {
        assert rest[0].xp <= s[0].xp;
      }
      assert s == [s[0]] + s[1..];
      [s[0]] + rest
  }

  /** The tail of a descending sequence is descending. */
  lemma TailDescending(s: seq<User>)
    requires XpDescending(s) && s != []
    ensures XpDescending(s[1..])
  {
    forall i, j | 0 <= i < j < |s[1..]| ensures s[1..][i].xp >= s[1..][j].xp {
      assert s[1..][i] == s[i + 1] && s[1..][j] == s[j + 1];
    }
  }

  /** `ORDER BY xp DESC`: a descending permutation of the table. */
  function SortByXp(us: seq<User>): (r: seq<User>)
    ensures XpDescending(r)
    ensures multiset(r) == multiset(us)
    ensures |r| == |us|
  {
    if us == [] then []
    else
      assert us == [us[0]] + us[1..];
      InsertByXp(us[0], SortByXp(us[1..]))
  }

  /** `ORDER BY xp DESC LIMIT 10`: the first ten of the sorted table. */
  function TopByXp(us: seq<User>): (r: seq<User>)
    ensures |r| == if |us| < BoardSize then |us| else BoardSize
    ensures XpDescending(r)
    ensures multiset(r) <= multiset(us)
    ensures forall u :: u in r ==> u in us
  {
    var sorted := SortByXp(us);
    assert sorted == sorted[..|sorted|];
    var n := if |us| < BoardSize then |us| else BoardSize;
    assert forall u :: u in sorted ==> u in us by {
      assert forall u :: u in sorted ==> u in multiset(sorted);
    }
    assert forall u :: u in sorted[..n] ==> u in sorted;
    assert sorted == sorted[..n] + sorted[n..];
    sorted[..n]
  }

  /** No user left off the board has more XP than any user on it. */
  lemma LeftOutRankLower(us: seq<User>, u: User, v: User)
    requires u in us && u !in TopByXp(us) && v in TopByXp(us)
    ensures v.xp >= u.xp
  {
    var sorted := SortByXp(us);
    var n := if |us| < BoardSize then |us| else BoardSize;
    assert TopByXp(us) == sorted[..n];
    assert u in multiset(sorted) by {
      assert u in multiset(us);
    }
    var k :| 0 <= k < |sorted| && sorted[k] == u;
    var i :| 0 <= i < n && sorted[..n][i] == v;
    assert sorted[i] == v;
  }

  /** One row of the board. */
  datatype Standing = Standing(username: string, level: int, xp: int)

  datatype BoardView = BoardLoginRequired | Board(rows: seq<Standing>)

  /** A user's row on the board. */
  function StandingOf(u: User): Standing {
    Standing(u.username, u.level, u.xp)
  }

  /** `leaderboard` for the session's user, if any: the standings of the
      top ten users by XP, in that order; a user whose standing is not on
      the board has XP no greater than any row on it. */
  function ShowLeaderboard(session: Option<Id>, us: seq<User>): (r: BoardView)
    ensures session.None? <==> r.BoardLoginRequired?
    ensures r.Board? ==>
      && |r.rows| == (if |us| < BoardSize then |us| else BoardSize)
      && (forall i, j :: 0 <= i < j < |r.rows| ==> r.rows[i].xp >= r.rows[j].xp)
      && (forall i :: 0 <= i < |r.rows| ==> exists u :: u in us && r.rows[i] == StandingOf(u))
    ensures r.Board? ==>
      && |r.rows| == |TopByXp(us)|
      && (forall i :: 0 <= i < |r.rows| ==> r.rows[i] == StandingOf(TopByXp(us)[i]))
    ensures r.Board? ==>
      forall u, i :: u in us && StandingOf(u) !in r.rows && 0 <= i < |r.rows| ==> r.rows[i].xp >= u.xp
  {
    match session
    case None => BoardLoginRequired
    case Some(_) =>
      BoardFacts(us);
      Board(Standings(TopByXp(us)))
  }

  /** The standings of `top`, row by row. */
  function Standings(top: seq<User>): (rows: seq<Standing>)
    ensures |rows| == |top|
    ensures forall i :: 0 <= i < |top| ==> rows[i] == StandingOf(top[i])
  {
    seq(|top|, i requires 0 <= i < |top| => StandingOf(top[i]))
  }

  /** The board's rows are in XP order, each a user's standing, and no
      user left off has more XP than a row on it. */
  lemma BoardFacts(us: seq<User>)
    ensures var rows := Standings(TopByXp(us));
      && (forall i, j :: 0 <= i < j < |rows| ==> rows[i].xp >= rows[j].xp)
      && (forall i :: 0 <= i < |rows| ==> exists u :: u in us && rows[i] == StandingOf(u))
      && (forall u, i :: u in us && StandingOf(u) !in rows && 0 <= i < |rows| ==> rows[i].xp >= u.xp)
  {
    var top := TopByXp(us);
    var rows := Standings(top);
    forall i | 0 <= i < |rows| ensures exists u :: u in us && rows[i] == StandingOf(u) {
      assert top[i] in top;
    }
    forall i, j | 0 <= i < j < |rows| ensures rows[i].xp >= rows[j].xp {
      assert rows[i].xp == top[i].xp && rows[j].xp == top[j].xp;
    }
    forall u, i | u in us && StandingOf(u) !in rows && 0 <= i < |rows| ensures rows[i].xp >= u.xp {
      LeftOutBelowRow(us, top, rows, u, i);
    }
  }

  /** A user whose standing is missing from the board is not among the top
      users, so each row on the board has at least that user's XP. */
  lemma LeftOutBelowRow(us: seq<User>, top: seq<User>, rows: seq<Standing>, u: User, i: int)
    requires top == TopByXp(us) && |rows| == |top|
    requires forall k :: 0 <= k < |top| ==> rows[k] == StandingOf(top[k])
    requires u in us && StandingOf(u) !in rows && 0 <= i < |rows|
    ensures rows[i].xp >= u.xp
  {
    assert u !in top;
    assert top[i] in top;
    LeftOutRankLower(us, u, top[i]);
  }

  /** With eleven users the board shows ten of them. */
  lemma ElevenUsersShowTen(us: seq<User>)
    requires |us| == 11
    ensures |ShowLeaderboard(Some(0), us).rows| == 10
  {
  }
}
