/**
 * The three kinds of SQL statement helpers.ts runs, over a table held as the sequence of its
 * rows in insertion order (the order in which SQLite scans a rowid table when no ORDER BY is
 * given). A WHERE condition is a total predicate on rows.
 */
module Sql {

  /** `SELECT ... WHERE p`: the rows satisfying `p`, in table order. */
  function Where<T>(rows: seq<T>, p: T -> bool): (r: seq<T>)
    ensures |r| <= |rows|
    ensures forall i :: 0 <= i < |r| ==> r[i] in rows && p(r[i])
    ensures forall i :: 0 <= i < |rows| && p(rows[i]) ==> rows[i] in r
  {
    if rows == [] then []
    else if p(rows[0]) then [rows[0]] + Where(rows[1..], p)
    else Where(rows[1..], p)
  }

  /** The negation of a WHERE condition. */
  function Not<T>(p: T -> bool): T -> bool
  {
    x => !p(x)
  }

  /** `DELETE ... WHERE p`: the table that remains, in its original order. */
  function Delete<T>(rows: seq<T>, p: T -> bool): (r: seq<T>)
    ensures |r| <= |rows|
    ensures forall i :: 0 <= i < |r| ==> r[i] in rows && !p(r[i])
    ensures forall i :: 0 <= i < |rows| && !p(rows[i]) ==> rows[i] in r
  {
    Where(rows, Not(p))
  }

  /** `UPDATE ... SET ... WHERE p`: every row satisfying `p` is rewritten by `f`, in place. */
  function Update<T>(rows: seq<T>, p: T -> bool, f: T -> T): (r: seq<T>)
    ensures |r| == |rows|
    ensures forall i :: 0 <= i < |rows| ==> r[i] == if p(rows[i]) then f(rows[i]) else rows[i]
  {
    if rows == [] then []
    else [if p(rows[0]) then f(rows[0]) else rows[0]] + Update(rows[1..], p, f)
  }

  /** Row `i` is the first row of the table that satisfies `p`: what `result[0]` of a SELECT is. */
  ghost predicate IsFirstMatch<T>(rows: seq<T>, p: T -> bool, i: int)
  {
    0 <= i < |rows| && p(rows[i]) && forall j :: 0 <= j < i ==> !p(rows[j])
  }

  /** A SELECT is empty exactly when no row matches; otherwise its first row is the first match. */
  lemma {:induction false} WhereHead<T>(rows: seq<T>, p: T -> bool)
    ensures Where(rows, p) == [] <==> forall i :: 0 <= i < |rows| ==> !p(rows[i])
    ensures Where(rows, p) != [] ==> exists i :: IsFirstMatch(rows, p, i) && Where(rows, p)[0] == rows[i]
  {
    if rows == [] {
    } else if p(rows[0]) {
      assert IsFirstMatch(rows, p, 0);
    } else {
      WhereHead(rows[1..], p);
      if Where(rows, p) != [] {
        var i :| IsFirstMatch(rows[1..], p, i) && Where(rows[1..], p)[0] == rows[1..][i];
        assert IsFirstMatch(rows, p, i + 1);
      }
    }
  }

  /** Selecting from a concatenation of tables selects from each, in order. */
  lemma {:induction false} WhereAppend<T>(a: seq<T>, b: seq<T>, p: T -> bool)
    ensures Where(a + b, p) == Where(a, p) + Where(b, p)
  {
    if a == [] {
      assert a + b == b;
    } else {
      assert (a + b)[1..] == a[1..] + b;
      WhereAppend(a[1..], b, p);
    }
  }

  /** A condition that every row satisfies selects the whole table. */
  lemma {:induction false} WhereAll<T>(rows: seq<T>, p: T -> bool)
    requires forall i :: 0 <= i < |rows| ==> p(rows[i])
    ensures Where(rows, p) == rows
  {
    if rows != [] {
      WhereAll(rows[1..], p);
    }
  }

  /** Selecting after an UPDATE that does not change the condition's value is updating the selection. */
  lemma {:induction false} WhereUpdate<T>(rows: seq<T>, p: T -> bool, f: T -> T, q: T -> bool)
    requires forall x :: q(f(x)) == q(x)
    ensures Where(Update(rows, p, f), q) == Update(Where(rows, q), p, f)
  {
    if rows != [] {
      var r := Update(rows, p, f);
      assert r[1..] == Update(rows[1..], p, f);
      WhereUpdate(rows[1..], p, f, q);
    }
  }

  /** Filtering by one condition and deleting by another commute. */
  lemma {:induction false} WhereDeleteCommute<T>(rows: seq<T>, p: T -> bool, q: T -> bool)
    ensures Where(Delete(rows, q), p) == Delete(Where(rows, p), q)
  {
    if rows != [] {
      WhereDeleteCommute(rows[1..], p, q);
    }
  }

  /** A DELETE that spares the first match of `p` leaves it the first match of `p`. The body
      spells out the argument; the verifier also finds it unaided. */
  lemma FirstMatchSurvivesDelete<T>(rows: seq<T>, p: T -> bool, q: T -> bool)
    requires Where(rows, p) != [] && !q(Where(rows, p)[0])
    ensures Where(Delete(rows, q), p) != [] && Where(Delete(rows, q), p)[0] == Where(rows, p)[0]
  {
    WhereDeleteCommute(rows, p, q);
    var w := Where(rows, p);
    assert Where(w, Not(q)) == [w[0]] + Where(w[1..], Not(q));
  }

  /** No two rows, in table order, stand in relation `r`. */
  ghost predicate NoPair<T>(rows: seq<T>, r: (T, T) -> bool)
  {
    forall i, j :: 0 <= i < j < |rows| ==> !r(rows[i], rows[j])
  }

  /** Dropping the first row keeps a table free of related pairs. */
  lemma NoPairTail<T>(rows: seq<T>, r: (T, T) -> bool)
    requires rows != [] && NoPair(rows, r)
    ensures NoPair(rows[1..], r)
  {
    var tail := rows[1..];
    forall i, j | 0 <= i < j < |tail| ensures !r(tail[i], tail[j]) {
      assert tail[i] == rows[i + 1] && tail[j] == rows[j + 1];
    }
  }

  /** Putting a row in front of a pair-free table keeps it pair-free when the new row is
      unrelated to every row of the table. */
  lemma NoPairCons<T>(x: T, rows: seq<T>, r: (T, T) -> bool)
    requires NoPair(rows, r)
    requires forall k :: 0 <= k < |rows| ==> !r(x, rows[k])
    ensures NoPair([x] + rows, r)
  {
    var w := [x] + rows;
    forall i, j | 0 <= i < j < |w| ensures !r(w[i], w[j]) {
      assert w[j] == rows[j - 1];
      if i > 0 {
        assert w[i] == rows[i - 1];
      }
    }
  }

  /** A SELECT (and so a DELETE) keeps a table free of related pairs. */
  lemma {:induction false} WhereKeepsNoPair<T>(rows: seq<T>, p: T -> bool, r: (T, T) -> bool)
    requires NoPair(rows, r)
    ensures NoPair(Where(rows, p), r)
  {
    if rows != [] {
      var tail := rows[1..];
      NoPairTail(rows, r);
      WhereKeepsNoPair(tail, p, r);
      if p(rows[0]) {
        var wt := Where(tail, p);
        forall k | 0 <= k < |wt| ensures !r(rows[0], wt[k]) {
          var m :| 0 <= m < |tail| && tail[m] == wt[k];
          assert rows[m + 1] == wt[k];
        }
        NoPairCons(rows[0], wt, r);
        assert Where(rows, p) == [rows[0]] + wt;
      }
    }
  }
}
