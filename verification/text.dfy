/**
 * String semantics the catalog queries depend on: Java's rendering of a null
 * string, SQL `LIKE` pattern matching and its relation to substring search,
 * and a total order on strings for `ORDER BY`.
 */
module Text {
  import opened Wrappers

  /** Java's string conversion in a concatenation: a null `String` becomes "null". */
  function JavaString(s: Option<string>): string {
    match s
    case Some(v) => v
    case None => "null"
  }

  /** `q` occurs in `s` as a contiguous run of characters. */
  predicate Contains(s: string, q: string)
    decreases |s|
  {
    q <= s || (|s| > 0 && Contains(s[1..], q))
  }

  /** A witness position of an occurrence of `q` in `s` makes `Contains(s, q)` true, and conversely. */
  lemma {:induction false} ContainsAt(s: string, q: string)
    ensures Contains(s, q) <==> exists i :: 0 <= i <= |s| - |q| && q <= s[i..]
    decreases |s|
  {
    if |s| > 0 {
      ContainsAt(s[1..], q);
      if Contains(s[1..], q) {
        var i :| 0 <= i <= |s[1..]| - |q| && q <= s[1..][i..];
        assert s[1..][i..] == s[i + 1..];
      }
      if exists i :: 0 <= i <= |s| - |q| && q <= s[i..] {
        var i :| 0 <= i <= |s| - |q| && q <= s[i..];
        if i > 0 {
          assert s[1..][i - 1..] == s[i..];
        }
      }
    } else {
      if exists i :: 0 <= i <= |s| - |q| && q <= s[i..] {
        var i :| 0 <= i <= |s| - |q| && q <= s[i..];
        assert s[i..] == s;
      }
    }
  }

  /**
   * SQL `LIKE`: `%` in the pattern matches any run of characters (the empty
   * one too), `_` matches exactly one character, and every other character
   * matches itself.
   */
  predicate Like(s: string, p: string)
    decreases |p|, |s|
  {
    if |p| == 0 then |s| == 0
    else if p[0] == '%' then Like(s, p[1..]) || (|s| > 0 && Like(s[1..], p))
    else |s| > 0 && (p[0] == '_' || p[0] == s[0]) && Like(s[1..], p[1..])
  }

  /** The query contains neither `LIKE` wildcard. */
  predicate Literal(q: string) {
    forall k :: 0 <= k < |q| ==> q[k] != '%' && q[k] != '_'
  }

  /**
   * The catalogs' search `column LIKE '%' + query + '%'`: a NULL column
   * matches nothing, a null query is spliced in as "null", and wildcards in
   * the query keep their meaning.
   */
  predicate ContainsLike(column: Option<string>, query: Option<string>) {
    column.Some? && Like(column.value, "%" + JavaString(query) + "%")
  }

  /** A lone `%` matches every string. */
  lemma {:induction false} LikeAnything(s: string)
    ensures Like(s, "%")
    decreases |s|
  {
    if |s| > 0 {
      LikeAnything(s[1..]);
    }
  }

  /** A literal head of the pattern must be a prefix of the string, and the rest matches what follows it. */
  lemma {:induction false} LikeLiteralHead(s: string, q: string, rest: string)
    requires Literal(q)
    ensures Like(s, q + rest) <==> q <= s && Like(s[|q|..], rest)
    decreases |q|
  {
    if |q| > 0 {
      assert (q + rest)[0] == q[0] && (q + rest)[1..] == q[1..] + rest;
      if |s| > 0 {
        LikeLiteralHead(s[1..], q[1..], rest);
        if |q| <= |s| {
          assert s[1..][|q[1..]|..] == s[|q|..];
        }
        assert q <= s <==> q[0] == s[0] && q[1..] <= s[1..];
      }
    } else {
      assert q + rest == rest;
    }
  }

  /** A leading `%` lets the rest of the pattern match any suffix. */
  lemma {:induction false} LikeLeadingPercent(s: string, p: string)
    ensures Like(s, "%" + p) <==> exists i :: 0 <= i <= |s| && Like(s[i..], p)
    decreases |s|
  {
    assert ("%" + p)[0] == '%' && ("%" + p)[1..] == p;
    assert s[0..] == s;
    if |s| > 0 {
      LikeLeadingPercent(s[1..], p);
      if exists i :: 1 <= i <= |s| && Like(s[i..], p) {
        var i :| 1 <= i <= |s| && Like(s[i..], p);
        assert s[1..][i - 1..] == s[i..];
      }
      if exists i :: 0 <= i <= |s[1..]| && Like(s[1..][i..], p) {
        var i :| 0 <= i <= |s[1..]| && Like(s[1..][i..], p);
        assert s[1..][i..] == s[i + 1..];
      }
    }
  }

  /** For a query free of wildcards, the search is exactly substring containment. */
  lemma LikeLiteralIsContains(s: string, q: string)
    requires Literal(q)
    ensures Like(s, "%" + q + "%") <==> Contains(s, q)
  {
    assert "%" + q + "%" == "%" + (q + "%");
    LikeLeadingPercent(s, q + "%");
    ContainsAt(s, q);
    forall i | 0 <= i <= |s|
      ensures Like(s[i..], q + "%") <==> q <= s[i..]
    {
      LikeLiteralHead(s[i..], q, "%");
      if q <= s[i..] {
        LikeAnything(s[i..][|q|..]);
      }
    }
    if Contains(s, q) {
      var i :| 0 <= i <= |s| - |q| && q <= s[i..];
      assert Like(s[i..], q + "%");
    }
  }

  /** A query of one `_` matches every non-empty string: the wildcard is not taken literally. */
  lemma UnderscoreMatchesAnyCharacter(s: string)
    ensures Like(s, "%_%") <==> |s| > 0
  {
    assert "%_%" == "%" + "_%";
    LikeLeadingPercent(s, "_%");
    if |s| > 0 {
      LikeAnything(s[1..]);
      assert Like(s[0..], "_%");
    }
  }

  /** Lexicographic order on strings by character code (a prefix sorts first). */
  predicate LexLe(a: string, b: string)
    decreases |a|
  {
    |a| == 0 || (|b| > 0 && (a[0] < b[0] || (a[0] == b[0] && LexLe(a[1..], b[1..]))))
  }

  lemma {:induction false} LexLeTotal(a: string, b: string)
    ensures LexLe(a, b) || LexLe(b, a)
    decreases |a|
  {
    if |a| > 0 && |b| > 0 && a[0] == b[0] {
      LexLeTotal(a[1..], b[1..]);
    }
  }

  lemma {:induction false} LexLeTransitive(a: string, b: string, c: string)
    requires LexLe(a, b) && LexLe(b, c)
    ensures LexLe(a, c)
    decreases |a|
  {
    if |a| > 0 && a[0] == b[0] && b[0] == c[0] {
      LexLeTransitive(a[1..], b[1..], c[1..]);
    }
  }

  lemma {:induction false} LexLeAntisymmetric(a: string, b: string)
    requires LexLe(a, b) && LexLe(b, a)
    ensures a == b
    decreases |a|
  {
    if |a| > 0 {
      LexLeAntisymmetric(a[1..], b[1..]);
      assert a == [a[0]] + a[1..] && b == [b[0]] + b[1..];
    }
  }

  /** Ascending string order with NULL before every string, as MySQL sorts. */
  predicate NullsFirstLe(a: Option<string>, b: Option<string>) {
    a.None? || (b.Some? && LexLe(a.value, b.value))
  }

  lemma NullsFirstTotal(a: Option<string>, b: Option<string>)
    ensures NullsFirstLe(a, b) || NullsFirstLe(b, a)
  {
    if a.Some? && b.Some? {
      LexLeTotal(a.value, b.value);
    }
  }

  lemma NullsFirstTransitive(a: Option<string>, b: Option<string>, c: Option<string>)
    requires NullsFirstLe(a, b) && NullsFirstLe(b, c)
    ensures NullsFirstLe(a, c)
  {
    if a.Some? {
      LexLeTransitive(a.value, b.value, c.value);
    }
  }

  lemma NullsFirstAntisymmetric(a: Option<string>, b: Option<string>)
    requires NullsFirstLe(a, b) && NullsFirstLe(b, a)
    ensures a == b
  {
    if a.Some? {
      LexLeAntisymmetric(a.value, b.value);
    }
  }
}
