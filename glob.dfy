/**
  `wire::string::matches`: glob matching of the text against a pattern in
  which `*` stands for any run of characters and `?` for one character
  other than `.`. Both sides are read as C strings, so each ends at its
  first NUL.
*/
module Glob {

  /** The C string a `std::string` holds: everything before the first NUL. */
  function CStr(s: string): (r: string)
    ensures |r| <= |s| && r == s[..|r|] && '\0' !in r
    ensures |r| < |s| ==> s[|r|] == '\0'
  {
    if s == [] || s[0] == '\0' then [] else [s[0]] + CStr(s[1..])
  }

  /** The recursive `match` of `matches`, over texts that hold no NUL. */
  function Match(p: string, s: string): bool
    decreases |p| + |s|
  {
    if p == [] then s == []
    else if p[0] == '*' then Match(p[1..], s) || (|s| > 0 && Match(p, s[1..]))
    else if p[0] == '?' then |s| > 0 && s[0] != '.' && Match(p[1..], s[1..])
    else |s| > 0 && s[0] == p[0] && Match(p[1..], s[1..])
  }

  /** `matches(pattern)` */
  predicate Matches(s: string, pattern: string) {
    Match(CStr(pattern), CStr(s))
  }

  /** A pattern without wildcards. */
  predicate Literal(p: string) {
    forall k :: 0 <= k < |p| ==> p[k] != '*' && p[k] != '?'
  }

  /** A pattern without wildcards matches exactly itself. */
  lemma {:induction false} LiteralMatch(p: string, s: string)
    requires Literal(p)
    ensures Match(p, s) <==> s == p
    decreases |p|
  {
    if p != [] {
      assert Literal(p[1..]) by {
        forall k | 0 <= k < |p[1..]|
          ensures p[1..][k] != '*' && p[1..][k] != '?'
        {
          assert p[1..][k] == p[k + 1];
        }
      }
      if |s| > 0 {
        LiteralMatch(p[1..], s[1..]);
        if s[0] == p[0] && s[1..] == p[1..] {
          assert s == [s[0]] + s[1..] && p == [p[0]] + p[1..];
        }
      }
    }
  }

  /** The empty pattern matches only the empty text. */
  lemma {:induction false} EmptyPattern(s: string)
    ensures Match([], s) <==> s == []
  {
  }

  /**
    `*` followed by a pattern matches a text exactly when the rest of the
    pattern matches some suffix of it.
  */
  lemma {:induction false} StarMatch(p: string, s: string)
    ensures Match(['*'] + p, s) <==> exists k :: 0 <= k <= |s| && Match(p, s[k..])
    decreases |s|
  {
    var q := ['*'] + p;
    assert q[1..] == p;
    assert s[0..] == s;
    if |s| > 0 {
      StarMatch(p, s[1..]);
      if exists k :: 0 <= k <= |s[1..]| && Match(p, s[1..][k..]) {
        var k :| 0 <= k <= |s[1..]| && Match(p, s[1..][k..]);
        assert s[1..][k..] == s[k + 1..];
        assert 0 <= k + 1 <= |s| && Match(p, s[k + 1..]);
      }
      if exists k :: 0 <= k <= |s| && Match(p, s[k..]) {
        var k :| 0 <= k <= |s| && Match(p, s[k..]);
        if k > 0 {
          assert s[1..][k - 1..] == s[k..];
        }
      }
    } else {
      if exists k :: 0 <= k <= |s| && Match(p, s[k..]) {
        var k :| 0 <= k <= |s| && Match(p, s[k..]);
        assert s[k..] == s;
      }
    }
  }

  /** A lone `*` matches every text. */
  lemma {:induction false} StarMatchesAll(s: string)
    ensures Match("*", s)
  {
    StarMatch([], s);
    assert ['*'] + [] == "*";
    assert s[|s|..] == [];
  }

  /** `?` consumes exactly one character, which must not be a dot. */
  lemma {:induction false} QuestionMatch(p: string, s: string)
    ensures Match(['?'] + p, s) <==> |s| > 0 && s[0] != '.' && Match(p, s[1..])
  {
    assert (['?'] + p)[1..] == p;
  }

  /** A text without NUL is read whole. */
  lemma {:induction false} CStrWhole(s: string)
    requires '\0' !in s
    ensures CStr(s) == s
    decreases |s|
  {
    if s != [] {
      assert s[0] in s;
      assert forall c :: c in s[1..] ==> c in s;
      CStrWhole(s[1..]);
      assert [s[0]] + s[1..] == s;
    }
  }

  /** A text without NUL, `*` or `?` matches itself and matches `*`. */
  lemma {:induction false} MatchesItself(s: string)
    requires '\0' !in s && Literal(s)
    ensures Matches(s, s) && Matches(s, "*")
  {
    CStrWhole(s);
    CStrWhole("*");
    LiteralMatch(s, s);
    StarMatchesAll(s);
  }
}
