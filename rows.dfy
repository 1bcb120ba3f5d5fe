/** Row-level meaning of the SQL statements the request handlers issue.
    A table is a sequence of rows in storage order; every statement below
    is a function from the old table to the new one (or to a result set). */
module Rows {

  /** `UPDATE t SET assign(row) WHERE where(row)`: every matching row is
      rewritten, every other row is kept, none is added or removed. */
  function Update<T>(s: seq<T>, where: T -> bool, assign: T -> T): (r: seq<T>)
    ensures |r| == |s|
    ensures forall i :: 0 <= i < |s| && where(s[i]) ==> r[i] == assign(s[i])
    ensures forall i :: 0 <= i < |s| && !where(s[i]) ==> r[i] == s[i]
  {
    if s == [] then []
    else [if where(s[0]) then assign(s[0]) else s[0]] + Update(s[1..], where, assign)
  }

  /** The rows of `s` that satisfy `keep`, in storage order: both
      `SELECT * FROM t WHERE keep(row)` and what `DELETE FROM t WHERE
      !keep(row)` leaves behind. */
  function Filter<T(==, !new)>(s: seq<T>, keep: T -> bool): (r: seq<T>)
    ensures |r| <= |s|
    ensures forall x :: x in r <==> x in s && keep(x)
  {
    if s == [] then []
    else (if keep(s[0]) then [s[0]] else []) + Filter(s[1..], keep)
  }

  /** A filter keeps every selected row exactly as many times as the
      table holds it, and no other row: a WHERE clause never repeats one. */
  lemma {:induction false} FilterCounts<T(!new)>(s: seq<T>, keep: T -> bool)
    ensures forall x :: multiset(Filter(s, keep))[x] == if keep(x) then multiset(s)[x] else 0
  {
    if s != [] {
      FilterCounts(s[1..], keep);
      assert s == [s[0]] + s[1..];
    }
  }

  /** The rows `out(x, y)` of `SELECT ... FROM xs JOIN ys ON on(x, y)`,
      one for every matching pair. */
  function Join<A(==, !new), B(==, !new), C(==, !new)>(xs: seq<A>, ys: seq<B>, on: (A, B) -> bool, out: (A, B) -> C): (r: seq<C>)
    ensures forall c :: c in r <==> exists x, y :: x in xs && y in ys && on(x, y) && c == out(x, y)
  {
    if xs == [] then []
    else JoinRow(xs[0], ys, on, out) + Join(xs[1..], ys, on, out)
  }

  /** The part of a join contributed by the one left-hand row `x`. */
  function JoinRow<A, B(==, !new), C(==, !new)>(x: A, ys: seq<B>, on: (A, B) -> bool, out: (A, B) -> C): (r: seq<C>)
    ensures forall c :: c in r <==> exists y :: y in ys && on(x, y) && c == out(x, y)
  {
    if ys == [] then []
    else (if on(x, ys[0]) then [out(x, ys[0])] else []) + JoinRow(x, ys[1..], on, out)
  }

  /** No row occurs twice. */
  predicate NoDuplicates<T(==)>(s: seq<T>) {
    forall i, j :: 0 <= i < j < |s| ==> s[i] != s[j]
  }

  /** Two duplicate-free sequences with no row in common concatenate to a
      duplicate-free sequence. */
  lemma ConcatNoDuplicates<T>(a: seq<T>, b: seq<T>)
    requires NoDuplicates(a) && NoDuplicates(b)
    requires forall x :: x in a ==> x !in b
    ensures NoDuplicates(a + b)
  {
    var t := a + b;
    forall i, j | 0 <= i < j < |t| ensures t[i] != t[j] {
      if j < |a| {
        assert t[i] == a[i] && t[j] == a[j];
      } else if i < |a| {
        assert t[i] == a[i] && t[j] == b[j - |a|] && a[i] in a;
      } else {
        assert t[i] == b[i - |a|] && t[j] == b[j - |a|];
      }
    }
  }

  /** The tail of a duplicate-free sequence is duplicate-free and does not
      hold its head. */
  lemma TailNoDuplicates<T>(s: seq<T>)
    requires NoDuplicates(s) && s != []
    ensures NoDuplicates(s[1..]) && s[0] !in s[1..]
  {
    forall i, j | 0 <= i < j < |s[1..]| ensures s[1..][i] != s[1..][j] {
      assert s[1..][i] == s[i + 1] && s[1..][j] == s[j + 1];
    }
    forall k | 0 <= k < |s[1..]| ensures s[1..][k] != s[0] {
      assert s[1..][k] == s[k + 1];
    }
  }

  /** One left-hand row joined against duplicate-free rows yields each
      output once, when distinct matching right-hand rows give distinct
      outputs. */
  lemma {:induction false} JoinRowNoDuplicates<A, B(!new), C(!new)>(x: A, ys: seq<B>, on: (A, B) -> bool, out: (A, B) -> C)
    requires NoDuplicates(ys)
    requires forall y, y' :: y in ys && y' in ys && on(x, y) && on(x, y') && out(x, y) == out(x, y') ==> y == y'
    ensures NoDuplicates(JoinRow(x, ys, on, out))
  {
    if ys != [] {
      TailNoDuplicates(ys);
      var rest := JoinRow(x, ys[1..], on, out);
      JoinRowNoDuplicates(x, ys[1..], on, out);
      if on(x, ys[0]) {
        forall y | y in ys[1..] && on(x, y) ensures out(x, y) != out(x, ys[0]) {
          assert y in ys;
        }
        assert out(x, ys[0]) !in rest;
        ConcatNoDuplicates([out(x, ys[0])], rest);
      } else {
        assert JoinRow(x, ys, on, out) == rest;
      }
    }
  }

  /** A join of duplicate-free tables yields each output once, when distinct
      matching pairs give distinct outputs: SQL's one row per matching pair. */
  lemma {:induction false} JoinNoDuplicates<A(!new), B(!new), C(!new)>(xs: seq<A>, ys: seq<B>, on: (A, B) -> bool, out: (A, B) -> C)
    requires NoDuplicates(xs) && NoDuplicates(ys)
    requires forall x, y, x', y' ::
      x in xs && y in ys && x' in xs && y' in ys && on(x, y) && on(x', y') && out(x, y) == out(x', y') ==>
        x == x' && y == y'
    ensures NoDuplicates(Join(xs, ys, on, out))
  {
    if xs != [] {
      TailNoDuplicates(xs);
      var head := JoinRow(xs[0], ys, on, out);
      var rest := Join(xs[1..], ys, on, out);
      JoinRowNoDuplicates(xs[0], ys, on, out);
      JoinNoDuplicates(xs[1..], ys, on, out);
      forall c | c in head ensures c !in rest {
        var y :| y in ys && on(xs[0], y) && c == out(xs[0], y);
        forall x', y' | x' in xs[1..] && y' in ys && on(x', y') ensures out(x', y') != c {
          assert x' in xs;
        }
      }
      ConcatNoDuplicates(head, rest);
    }
  }

  /** A unique key rules out duplicate rows. */
  lemma DistinctKeysNoDuplicates<T, K>(s: seq<T>, key: T -> K)
    requires DistinctKeys(s, key)
    ensures NoDuplicates(s)
  {
    forall i, j | 0 <= i < j < |s| ensures s[i] != s[j] {
      assert key(s[i]) != key(s[j]);
    }
  }

  /** No two rows share a key: a primary key or a UNIQUE column. */
  predicate DistinctKeys<T, K(==)>(s: seq<T>, key: T -> K) {
    forall i, j :: 0 <= i < j < |s| ==> key(s[i]) != key(s[j])
  }

  /** Under a unique key, two rows with the same key are the same row. */
  lemma SameKeySameRow<T, K>(s: seq<T>, key: T -> K, a: T, b: T)
    requires DistinctKeys(s, key)
    requires a in s && b in s && key(a) == key(b)
    ensures a == b
  {
    var i :| 0 <= i < |s| && s[i] == a;
    var j :| 0 <= j < |s| && s[j] == b;
    assert key(s[i]) == key(s[j]);
  }

  /** Every key is below `n`: what an AUTO_INCREMENT counter at `n` guarantees. */
  predicate KeysBelow<T(==)>(s: seq<T>, key: T -> nat, n: nat) {
    forall x :: x in s ==> key(x) < n
  }

  /** An INSERT with the counter's next value keeps the key unique and
      below the advanced counter. */
  lemma AppendFresh<T>(s: seq<T>, x: T, key: T -> nat, n: nat)
    requires DistinctKeys(s, key) && KeysBelow(s, key, n)
    requires key(x) == n
    ensures DistinctKeys(s + [x], key) && KeysBelow(s + [x], key, n + 1)
  {
    var t := s + [x];
    forall i, j | 0 <= i < j < |t| ensures key(t[i]) != key(t[j]) {
      if j == |s| {
        assert t[i] == s[i] && s[i] in s;
      } else {
        assert t[i] == s[i] && t[j] == s[j];
      }
    }
  }

  /** Appending a row whose key no existing row has keeps the key unique. */
  lemma AppendDistinct<T, K>(s: seq<T>, x: T, key: T -> K)
    requires DistinctKeys(s, key)
    requires forall y :: y in s ==> key(y) != key(x)
    ensures DistinctKeys(s + [x], key)
  {
    var t := s + [x];
    forall i, j | 0 <= i < j < |t| ensures key(t[i]) != key(t[j]) {
      if j == |s| {
        assert t[i] == s[i] && s[i] in s;
      } else {
        assert t[i] == s[i] && t[j] == s[j];
      }
    }
  }

  /** A DELETE keeps a unique key unique. */
  lemma {:induction false} FilterDistinct<T(!new), K>(s: seq<T>, keep: T -> bool, key: T -> K)
    requires DistinctKeys(s, key)
    ensures DistinctKeys(Filter(s, keep), key)
  {
    if s != [] {
      var rest := Filter(s[1..], keep);
      assert DistinctKeys(s[1..], key) by {
        forall i, j | 0 <= i < j < |s[1..]| ensures key(s[1..][i]) != key(s[1..][j]) {
          assert s[1..][i] == s[i + 1] && s[1..][j] == s[j + 1];
        }
      }
      FilterDistinct(s[1..], keep, key);
      if keep(s[0]) {
        forall y | y in rest ensures key(y) != key(s[0]) {
          assert y in s[1..];
          var k :| 0 <= k < |s[1..]| && s[1..][k] == y;
          assert y == s[k + 1];
        }
        AppendFront(s[0], rest, key);
      }
    }
  }

  /** Putting a row in front of rows that do not share its key keeps keys unique. */
  lemma AppendFront<T, K>(x: T, s: seq<T>, key: T -> K)
    requires DistinctKeys(s, key)
    requires forall y :: y in s ==> key(y) != key(x)
    ensures DistinctKeys([x] + s, key)
  {
    var t := [x] + s;
    forall i, j | 0 <= i < j < |t| ensures key(t[i]) != key(t[j]) {
      assert t[j] == s[j - 1] && s[j - 1] in s;
      if i > 0 {
        assert t[i] == s[i - 1];
      }
    }
  }

  /** A filter whose condition every row meets changes nothing; in
      particular a DELETE that matches no row is a no-op. */
  lemma {:induction false} FilterKeepsAll<T(!new)>(s: seq<T>, keep: T -> bool)
    requires forall x :: x in s ==> keep(x)
    ensures Filter(s, keep) == s
  {
    if s != [] {
      assert forall x :: x in s[1..] ==> x in s;
      FilterKeepsAll(s[1..], keep);
      assert s == [s[0]] + s[1..];
    }
  }

  /** When the key is unique and every row a DELETE drops has the key `k`,
      the DELETE drops at most one row. */
  lemma {:induction false} FilterDropsAtMostOne<T(!new), K>(s: seq<T>, keep: T -> bool, key: T -> K, k: K)
    requires DistinctKeys(s, key)
    requires forall x :: x in s && !keep(x) ==> key(x) == k
    ensures |Filter(s, keep)| + 1 >= |s|
  {
    if s != [] {
      assert DistinctKeys(s[1..], key) by {
        forall i, j | 0 <= i < j < |s[1..]| ensures key(s[1..][i]) != key(s[1..][j]) {
          assert s[1..][i] == s[i + 1] && s[1..][j] == s[j + 1];
        }
      }
      assert forall x :: x in s[1..] ==> x in s;
      if keep(s[0]) {
        FilterDropsAtMostOne(s[1..], keep, key, k);
      } else {
        forall x | x in s[1..] ensures keep(x) {
          var m :| 0 <= m < |s[1..]| && s[1..][m] == x;
          assert x == s[m + 1];
          assert key(s[0]) != key(s[m + 1]);
        }
        FilterKeepsAll(s[1..], keep);
      }
    }
  }

  /** Filtering with `p` and then with a stronger `q` is filtering with `q`:
      rows that `q` selects are untouched by a DELETE that only removes rows
      `q` rejects. */
  lemma {:induction false} FilterNarrow<T(!new)>(s: seq<T>, p: T -> bool, q: T -> bool)
    requires forall x :: q(x) ==> p(x)
    ensures Filter(Filter(s, p), q) == Filter(s, q)
  {
    if s != [] {
      FilterNarrow(s[1..], p, q);
      var head := if p(s[0]) then [s[0]] else [];
      assert Filter(s, p) == head + Filter(s[1..], p);
      FilterConcat(head, Filter(s[1..], p), q);
      if p(s[0]) {
        assert Filter(head, q) == (if q(s[0]) then [s[0]] else []) by {
          assert head[1..] == [];
        }
      }
    }
  }

  /** A filter distributes over concatenation. */
  lemma {:induction false} FilterConcat<T(!new)>(s: seq<T>, t: seq<T>, keep: T -> bool)
    ensures Filter(s + t, keep) == Filter(s, keep) + Filter(t, keep)
  {
    if s != [] {
      assert (s + t)[1..] == s[1..] + t;
      FilterConcat(s[1..], t, keep);
    } else {
      assert s + t == t;
    }
  }
}
