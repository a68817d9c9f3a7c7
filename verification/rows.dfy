/**
 * The handful of table operations the data-access layer's SQL statements are
 * built from, over a table represented as a sequence of rows in storage order:
 * `WHERE` (a filter), `COUNT(*)`, the first row of a result, `UPDATE … WHERE`
 * and `DELETE … WHERE`.
 */
module Rows {
  import opened Wrappers

  /** The rows of `s` satisfying `p`, in storage order: `SELECT * … WHERE p`. */
  function Where<T(!new)>(s: seq<T>, p: T -> bool): (r: seq<T>)
    ensures |r| <= |s|
    ensures forall x :: x in r <==> x in s && p(x)
    decreases |s|
  {
    if |s| == 0 then []
    else if p(s[0]) then [s[0]] + Where(s[1..], p)
    else Where(s[1..], p)
  }

  /** `SELECT COUNT(*) … WHERE p`. */
  function CountWhere<T(!new)>(s: seq<T>, p: T -> bool): (n: nat)
    ensures n <= |s|
    ensures n > 0 <==> exists x :: x in s && p(x)
  {
    var w := Where(s, p);
    assert |w| > 0 ==> w[0] in w;
    |w|
  }

  /** The row a single `rs.next()` yields: the first row satisfying `p`, if any. */
  function First<T(!new)>(s: seq<T>, p: T -> bool): (r: Option<T>)
    ensures r.Some? ==> r.value in s && p(r.value)
    ensures r.None? <==> forall x :: x in s ==> !p(x)
    decreases |s|
  {
    if |s| == 0 then None
    else if p(s[0]) then Some(s[0])
    else First(s[1..], p)
  }

  /** `UPDATE … SET f WHERE p`: rewrites the rows satisfying `p` in place. */
  function UpdateWhere<T>(s: seq<T>, p: T -> bool, f: T -> T): (r: seq<T>)
    ensures |r| == |s|
    ensures forall i :: 0 <= i < |s| ==> r[i] == (if p(s[i]) then f(s[i]) else s[i])
  {
    seq(|s|, i requires 0 <= i < |s| => if p(s[i]) then f(s[i]) else s[i])
  }

  /** The negated condition. */
  function Not<T>(p: T -> bool): T -> bool {
    x => !p(x)
  }

  /** `DELETE … WHERE p`: keeps, in order, the rows that do not satisfy `p`. */
  function DeleteWhere<T(!new)>(s: seq<T>, p: T -> bool): (r: seq<T>)
    ensures |r| <= |s|
    ensures forall x :: x in r <==> x in s && !p(x)
  {
    Where(s, Not(p))
  }

  /** No two rows of `s` share a value of `key`: a primary key, or any unique column set. */
  ghost predicate Distinct<T, K>(s: seq<T>, key: T -> K) {
    forall i, j :: 0 <= i < j < |s| ==> key(s[i]) != key(s[j])
  }

  /** The rows an `UPDATE` or `DELETE` with condition `p` reports as affected. */
  lemma {:induction false} DeleteWhereCount<T(!new)>(s: seq<T>, p: T -> bool)
    ensures |DeleteWhere(s, p)| + CountWhere(s, p) == |s|
    decreases |s|
  {
    if |s| > 0 {
      DeleteWhereCount(s[1..], p);
      assert Where(s, Not(p)) == (if !p(s[0]) then [s[0]] else []) + Where(s[1..], Not(p));
    }
  }

  /** Appending a row adds it to the result of every `WHERE` it satisfies. */
  lemma {:induction false} WhereAppend<T(!new)>(s: seq<T>, x: T, p: T -> bool)
    ensures Where(s + [x], p) == Where(s, p) + (if p(x) then [x] else [])
    decreases |s|
  {
    if |s| > 0 {
      assert (s + [x])[1..] == s[1..] + [x];
      WhereAppend(s[1..], x, p);
    } else {
      assert s + [x] == [x];
    }
  }

  /** The positions of the rows of `s` satisfying `p`. */
  ghost function Positions<T>(s: seq<T>, p: T -> bool): set<int> {
    set i | 0 <= i < |s| && p(s[i])
  }

  lemma PositionsAppend<T>(t: seq<T>, x: T, p: T -> bool)
    ensures Positions(t + [x], p) == Positions(t, p) + (if p(x) then {|t|} else {})
  {
    var s := t + [x];
    forall i ensures i in Positions(s, p) <==> i in Positions(t, p) || (p(x) && i == |t|) {
      if 0 <= i < |t| {
        assert s[i] == t[i];
      }
    }
  }

  /** `COUNT(*)` is the number of row positions whose row satisfies the condition. */
  lemma {:induction false} CountWhereIndices<T(!new)>(s: seq<T>, p: T -> bool)
    ensures CountWhere(s, p) == |Positions(s, p)|
    decreases |s|
  {
    if |s| > 0 {
      var t, x := s[..|s| - 1], s[|s| - 1];
      assert s == t + [x];
      CountWhereIndices(t, p);
      WhereAppend(t, x, p);
      PositionsAppend(t, x, p);
      assert |t| !in Positions(t, p);
    } else {
      assert forall i :: i !in Positions(s, p);
      assert Positions(s, p) == {};
    }
  }

  /** A row can be told apart by `key` from all rows of `t` exactly when prepending it keeps `t` distinct. */
  lemma DistinctCons<T, K>(h: T, t: seq<T>, key: T -> K)
    requires Distinct(t, key)
    requires forall x :: x in t ==> key(x) != key(h)
    ensures Distinct([h] + t, key)
  {
    var s := [h] + t;
    forall i, j | 0 <= i < j < |s| ensures key(s[i]) != key(s[j]) {
      assert s[j] == t[j - 1];
      if i > 0 {
        assert s[i] == t[i - 1];
      } else {
        assert s[j] in t;
      }
    }
  }

  /** A `WHERE` keeps a unique column set unique. */
  lemma {:induction false} DistinctWhere<T(!new), K>(s: seq<T>, key: T -> K, p: T -> bool)
    requires Distinct(s, key)
    ensures Distinct(Where(s, p), key)
    decreases |s|
  {
    if |s| > 0 {
      var t := s[1..];
      forall i, j | 0 <= i < j < |t| ensures key(t[i]) != key(t[j]) {
        assert t[i] == s[i + 1] && t[j] == s[j + 1];
      }
      DistinctWhere(t, key, p);
      if p(s[0]) {
        forall x | x in Where(t, p) ensures key(x) != key(s[0]) {
          var k :| 0 <= k < |t| && t[k] == x;
          assert s[k + 1] == x;
        }
        DistinctCons(s[0], Where(t, p), key);
      }
    }
  }

  /** A `DELETE` keeps a unique column set unique. */
  lemma DistinctDeleteWhere<T(!new), K>(s: seq<T>, key: T -> K, p: T -> bool)
    requires Distinct(s, key)
    ensures Distinct(DeleteWhere(s, p), key)
  {
    DistinctWhere(s, key, Not(p));
  }

  /** Appending a row whose key is new keeps the key unique. */
  lemma DistinctAppend<T, K>(s: seq<T>, x: T, key: T -> K)
    requires Distinct(s, key)
    requires forall y :: y in s ==> key(y) != key(x)
    ensures Distinct(s + [x], key)
  {
    var r := s + [x];
    forall i, j | 0 <= i < j < |r| ensures key(r[i]) != key(r[j]) {
      assert r[i] == s[i];
      if j == |s| {
        assert r[i] in s;
      } else {
        assert r[j] == s[j];
      }
    }
  }

  /** An `UPDATE` that leaves `key` alone keeps it unique. */
  lemma DistinctUpdateWhere<T, K>(s: seq<T>, key: T -> K, p: T -> bool, f: T -> T)
    requires Distinct(s, key)
    requires forall x :: key(f(x)) == key(x)
    ensures Distinct(UpdateWhere(s, p, f), key)
  {
    var r := UpdateWhere(s, p, f);
    forall i, j | 0 <= i < j < |r| ensures key(r[i]) != key(r[j]) {
      assert key(r[i]) == key(s[i]) && key(r[j]) == key(s[j]);
    }
  }

  /** A `WHERE` keeps every satisfying row as often as the table holds it, and no other row. */
  lemma {:induction false} WhereMultiplicity<T(!new)>(s: seq<T>, p: T -> bool, x: T)
    ensures multiset(Where(s, p))[x] == if p(x) then multiset(s)[x] else 0
    decreases |s|
  {
    if |s| > 0 {
      WhereMultiplicity(s[1..], p, x);
      assert s == [s[0]] + s[1..];
      assert multiset(s) == multiset{s[0]} + multiset(s[1..]);
    }
  }

  /** `SELECT f(x) … WHERE p(x)`: the satisfying rows in storage order, each projected through `f`. */
  function SelectWhere<T(!new), U(!new)>(s: seq<T>, p: T -> bool, f: T -> U): (r: seq<U>)
    ensures |r| == CountWhere(s, p)
    ensures forall y :: y in r <==> exists x :: x in s && p(x) && y == f(x)
  {
    var rows := Where(s, p);
    var r := seq(|rows|, i requires 0 <= i < |rows| => f(rows[i]));
    forall y | exists x :: x in s && p(x) && y == f(x) ensures y in r {
      var x :| x in s && p(x) && y == f(x);
      assert x in rows;
      var i :| 0 <= i < |rows| && rows[i] == x;
      assert r[i] == y;
    }
    r
  }
}
