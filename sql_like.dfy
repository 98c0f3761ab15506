/** The `LIKE` operator of SQLite as the artist search uses it: `%` matches any
    run of characters, `_` any single character, and letters compare without
    regard to ASCII case. No ESCAPE clause is used, so every `%` and `_` in the
    pattern is a wildcard. */
module SqlLike {

  /** ASCII-only case folding, as SQLite applies it to both operands of LIKE. */
  function Fold(c: char): (f: char)
    ensures !('A' <= f <= 'Z')
    ensures ('a' <= f <= 'z') <==> ('a' <= c <= 'z' || 'A' <= c <= 'Z')
    ensures !('a' <= c <= 'z' || 'A' <= c <= 'Z') ==> f == c
  {
    if 'A' <= c <= 'Z' then (c as int + 32) as char else c
  }

  /** Two characters compare equal under LIKE exactly when they are equal or
      are the same ASCII letter in different case. */
  lemma FoldEqual(c: char, d: char)
    ensures Fold(c) == Fold(d) <==>
      || c == d
      || ('A' <= c <= 'Z' && d as int == c as int + 32)
      || ('A' <= d <= 'Z' && c as int == d as int + 32)
  {
  }

  predicate IsWildcard(c: char)
  {
    c == '%' || c == '_'
  }

  /** A search string with no wildcard in it. */
  predicate Literal(q: string)
  {
    forall k :: 0 <= k < |q| ==> !IsWildcard(q[k])
  }

  /** The pattern has no `%`, so it never matches runs of characters. */
  predicate NoPercent(p: string)
  {
    forall k :: 0 <= k < |p| ==> p[k] != '%'
  }

  /** `s LIKE p`. Without `%`, a pattern only matches strings of its own
      length. */
  function Like(s: string, p: string): (r: bool)
    ensures r && NoPercent(p) ==> |s| == |p|
    decreases |p|, |s|
  {
    if p == [] then s == []
    else if p[0] == '%' then Like(s, p[1..]) || (s != [] && Like(s[1..], p))
    else s != [] && (p[0] == '_' || Fold(p[0]) == Fold(s[0])) && Like(s[1..], p[1..])
  }

  /** Every string matches itself used as a pattern. */
  lemma {:induction false} LikeSelf(s: string)
    ensures Like(s, s)
  {
    if s != [] {
      LikeSelf(s[1..]);
      if s[0] == '%' {
        assert Like(s[1..], s) by {
          if s[1..] == [] {
            assert Like(s[1..], s[1..]);
          } else {
            assert Like(s[1..], s[1..]);
          }
        }
      }
    }
  }

  /** `q` occurs in `s` at position `i`, ignoring ASCII case. */
  ghost predicate OccursAt(s: string, q: string, i: int)
  {
    0 <= i && i + |q| <= |s| && forall k :: 0 <= k < |q| ==> Fold(s[i + k]) == Fold(q[k])
  }

  /** `q` is a substring of `s`, ignoring ASCII case. */
  ghost predicate ContainsFolded(s: string, q: string)
  {
    exists i :: OccursAt(s, q, i)
  }

  /** A lone `%` matches every string. */
  lemma {:induction false} PercentMatchesAll(s: string)
    ensures Like(s, "%")
  {
    assert "%"[1..] == "";
    if s != [] {
      PercentMatchesAll(s[1..]);
    }
  }

  /** A wildcard-free prefix followed by `%` matches exactly the strings that
      start with that prefix, ignoring ASCII case. */
  lemma {:induction false} PrefixThenPercent(s: string, q: string)
    requires Literal(q)
    ensures Like(s, q + "%") <==> OccursAt(s, q, 0)
  {
    if q == [] {
      assert q + "%" == "%";
      PercentMatchesAll(s);
    } else {
      var p := q + "%";
      assert p[0] == q[0] && !IsWildcard(q[0]);
      assert p[1..] == q[1..] + "%";
      if s != [] {
        assert Literal(q[1..]) by {
          forall k | 0 <= k < |q[1..]| ensures !IsWildcard(q[1..][k]) {
            assert q[1..][k] == q[k + 1];
          }
        }
        PrefixThenPercent(s[1..], q[1..]);
        if OccursAt(s, q, 0) {
          forall k | 0 <= k < |q[1..]| ensures Fold(s[1..][k]) == Fold(q[1..][k]) {
            assert Fold(s[k + 1]) == Fold(q[k + 1]);
          }
          assert OccursAt(s[1..], q[1..], 0);
          assert Fold(s[0 + 0]) == Fold(q[0]);
        }
        if Like(s, p) {
          assert OccursAt(s[1..], q[1..], 0);
          forall k | 0 <= k < |q| ensures Fold(s[k]) == Fold(q[k]) {
            if k > 0 {
              assert Fold(s[1..][k - 1]) == Fold(q[1..][k - 1]);
            }
          }
        }
      }
    }
  }

  /** The artist search pattern `'%' || q || '%'` with a wildcard-free `q`
      matches exactly the strings that contain `q`, ignoring ASCII case. */
  lemma {:induction false} SurroundedMatchesSubstring(s: string, q: string)
    requires Literal(q)
    ensures Like(s, "%" + q + "%") <==> ContainsFolded(s, q)
  {
    var p := "%" + q + "%";
    assert p[0] == '%' && p[1..] == q + "%";
    PrefixThenPercent(s, q);
    if s == [] {
      if ContainsFolded(s, q) {
        var i :| OccursAt(s, q, i);
        assert i == 0;
      }
    } else {
      SurroundedMatchesSubstring(s[1..], q);
      if ContainsFolded(s, q) {
        var i :| OccursAt(s, q, i);
        if i > 0 {
          forall k | 0 <= k < |q| ensures Fold(s[1..][i - 1 + k]) == Fold(q[k]) {
            assert s[1..][i - 1 + k] == s[i + k];
          }
          assert OccursAt(s[1..], q, i - 1);
        }
      }
      if ContainsFolded(s[1..], q) {
        var j :| OccursAt(s[1..], q, j);
        forall k | 0 <= k < |q| ensures Fold(s[j + 1 + k]) == Fold(q[k]) {
          assert s[1..][j + k] == s[j + 1 + k];
        }
        assert OccursAt(s, q, j + 1);
      }
    }
  }

  /** The pattern built from an empty search string, `%%`, matches everything. */
  lemma EmptySearchMatchesAll(s: string)
    ensures Like(s, "%" + "" + "%")
  {
    assert OccursAt(s, "", 0);
    SurroundedMatchesSubstring(s, "");
  }
}
