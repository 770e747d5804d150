/**
  SQLite's `LIKE` operator as `search_vault` uses it: no ESCAPE clause, `%`
  matches any run of characters, `_` matches exactly one, and letters compare
  ASCII case-insensitively.
*/
module SqlLike {
  import opened ByteStrings

  /** SQLite's ASCII-only case folding. */
  function Lower(b: byte): byte
  {
    if 65 <= b <= 90 then b + 32 else b
  }

  predicate Like(pattern: Bytes, s: Bytes)
    decreases |pattern|, |s|
  {
    if pattern == [] then s == []
    else if pattern[0] == PERCENT then Like(pattern[1..], s) || (s != [] && Like(pattern, s[1..]))
    else s != [] && (pattern[0] == UNDERSCORE || Lower(pattern[0]) == Lower(s[0])) && Like(pattern[1..], s[1..])
  }

  /** The pattern `format!("%{}%", query)`. */
  function SearchPattern(query: Bytes): Bytes
  {
    [PERCENT] + query + [PERCENT]
  }

  predicate HasWildcards(query: Bytes)
  {
    PERCENT in query || UNDERSCORE in query
  }

  /** `q` matches `s` at position `i`, comparing letters ASCII case-insensitively. */
  predicate MatchesAtIgnoreCase(q: Bytes, s: Bytes, i: nat)
  {
    i + |q| <= |s| && forall j :: 0 <= j < |q| ==> Lower(q[j]) == Lower(s[i + j])
  }

  /** `q` is an ASCII case-insensitive substring of `s`. */
  predicate ContainsIgnoreCase(s: Bytes, q: Bytes)
  {
    exists i: int | 0 <= i && i + |q| <= |s| :: MatchesAtIgnoreCase(q, s, i)
  }

  lemma {:induction false} PercentMatchesAll(s: Bytes)
    ensures Like([PERCENT], s)
  {
    assert [PERCENT][1..] == [];
    if s != [] {
      PercentMatchesAll(s[1..]);
    }
  }

  /** A wildcard-free `q` followed by `%` matches exactly the strings that start with `q`, ignoring case. */
  lemma {:induction false} PrefixPattern(q: Bytes, s: Bytes)
    requires !HasWildcards(q)
    ensures Like(q + [PERCENT], s) <==> MatchesAtIgnoreCase(q, s, 0)
  {
    if q == [] {
      assert q + [PERCENT] == [PERCENT];
      PercentMatchesAll(s);
    } else {
      var p := q + [PERCENT];
      assert p[0] == q[0] && p[1..] == q[1..] + [PERCENT];
      assert !HasWildcards(q[1..]) by {
        assert forall b :: b in q[1..] ==> b in q;
      }
      if s != [] {
        PrefixPattern(q[1..], s[1..]);
        if MatchesAtIgnoreCase(q[1..], s[1..], 0) && Lower(q[0]) == Lower(s[0]) {
          forall j | 0 <= j < |q|
            ensures Lower(q[j]) == Lower(s[j])
          {
            if j > 0 {
              assert q[1..][j - 1] == q[j] && s[1..][j - 1] == s[j];
            }
          }
        }
        if MatchesAtIgnoreCase(q, s, 0) {
          forall j | 0 <= j < |q| - 1
            ensures Lower(q[1..][j]) == Lower(s[1..][j])
          {
            assert Lower(q[j + 1]) == Lower(s[j + 1]);
          }
        }
      }
    }
  }

  /** A leading `%` lets the rest of the pattern match any suffix. */
  lemma {:induction false} LeadingPercent(p: Bytes, s: Bytes)
    ensures Like([PERCENT] + p, s) <==> exists i: int | 0 <= i <= |s| :: Like(p, s[i..])
  {
    var pp := [PERCENT] + p;
    assert pp[1..] == p;
    assert s[0..] == s;
    if s != [] {
      LeadingPercent(p, s[1..]);
      if Like(pp, s[1..]) {
        var i: int :| 0 <= i <= |s[1..]| && Like(p, s[1..][i..]);
        assert s[1..][i..] == s[i + 1..];
      }
      if exists i: int | 0 <= i <= |s| :: Like(p, s[i..]) {
        var i: int :| 0 <= i <= |s| && Like(p, s[i..]);
        if i > 0 {
          assert s[1..][i - 1..] == s[i..];
        }
      }
    }
  }

  /**
    For a query without `%` or `_`, the search pattern `%query%` selects exactly
    the keys that contain the query as an ASCII case-insensitive substring.
  */
  lemma SearchPatternIsSubstring(query: Bytes, key: Bytes)
    requires !HasWildcards(query)
    ensures Like(SearchPattern(query), key) <==> ContainsIgnoreCase(key, query)
  {
    var p := query + [PERCENT];
    assert SearchPattern(query) == [PERCENT] + p;
    LeadingPercent(p, key);
    if Like(SearchPattern(query), key) {
      var i: int :| 0 <= i <= |key| && Like(p, key[i..]);
      PrefixPattern(query, key[i..]);
      assert MatchesAtIgnoreCase(query, key, i);
    }
    if ContainsIgnoreCase(key, query) {
      var i: int :| 0 <= i && i + |query| <= |key| && MatchesAtIgnoreCase(query, key, i);
      PrefixPattern(query, key[i..]);
      assert MatchesAtIgnoreCase(query, key[i..], 0);
    }
  }

  /** The empty query gives the pattern `%%`, which every key matches. */
  lemma {:induction false} EmptyQueryMatchesAll(key: Bytes)
    ensures Like(SearchPattern([]), key)
  {
    assert SearchPattern([]) == [PERCENT] + [PERCENT];
    LeadingPercent([PERCENT], key);
    PercentMatchesAll(key);
    assert key[0..] == key;
  }
}
