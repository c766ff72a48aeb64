/**
 LIKE patterns built from user input (core/database.rs).  `Like` is the predicate of
 section 8.5 of SQL-92 with escape character backslash: `%` stands for any string, `_` for
 any one character, and an escaped character for itself.
 */
module LikePattern {

  predicate Like(s: string, pattern: string)
    decreases |pattern|, |s|
  {
    if pattern == "" then s == ""
    else if pattern[0] == '\\' then
      |pattern| >= 2 && s != "" && s[0] == pattern[1] && Like(s[1..], pattern[2..])
    else if pattern[0] == '%' then
      Like(s, pattern[1..]) || (s != "" && Like(s[1..], pattern))
    else
      s != "" && (pattern[0] == '_' || s[0] == pattern[0]) && Like(s[1..], pattern[1..])
  }

  /** Rust's `str::replace` of one character. */
  function Replace(s: string, c: char, with: string): string
  {
    if s == "" then "" else (if s[0] == c then with else [s[0]]) + Replace(s[1..], c, with)
  }

  /** The three chained replaces of `escape_like_pattern`. */
  function EscapeLikePattern(value: string): string
  {
    Replace(Replace(Replace(value, '\\', "\\\\"), '%', "\\%"), '_', "\\_")
  }

  /** One pass that puts a backslash before each special character. */
  function EscapeOnce(value: string): string
  {
    if value == "" then ""
    else (if value[0] in "\\%_" then ['\\', value[0]] else [value[0]]) + EscapeOnce(value[1..])
  }

  lemma {:induction false} ReplaceConcat(s: string, t: string, c: char, with: string)
    ensures Replace(s + t, c, with) == Replace(s, c, with) + Replace(t, c, with)
  {
    if s == "" {
      assert s + t == t;
    } else {
      assert (s + t)[1..] == s[1..] + t;
      ReplaceConcat(s[1..], t, c, with);
    }
  }

  lemma ReplaceShort(c: char, with: string, x: char, y: char)
    ensures Replace([x], c, with) == if x == c then with else [x]
    ensures Replace([x, y], c, with) == (if x == c then with else [x]) + (if y == c then with else [y])
  {
    assert Replace([x], c, with) == (if x == c then with else [x]) + Replace([], c, with);
    assert [x, y] == [x] + [y];
    ReplaceConcat([x], [y], c, with);
    assert Replace([y], c, with) == (if y == c then with else [y]) + Replace([], c, with);
  }

  lemma EscapeOfHead(c: char)
    ensures EscapeLikePattern([c]) == if c in "\\%_" then ['\\', c] else [c]
  {
    ReplaceShort('\\', "\\\\", c, c);
    ReplaceShort('%', "\\%", c, c);
    ReplaceShort('%', "\\%", '\\', '\\');
    ReplaceShort('_', "\\_", c, c);
    ReplaceShort('_', "\\_", '\\', '\\');
    ReplaceShort('_', "\\_", '\\', '%');
  }

  /** The chained replaces never escape a backslash that an earlier replace put in. */
  lemma {:induction false} EscapeIsOnePass(value: string)
    ensures EscapeLikePattern(value) == EscapeOnce(value)
  {
    if value != "" {
      var head, tail := [value[0]], value[1..];
      assert value == head + tail;
      EscapeIsOnePass(tail);
      EscapeOfHead(value[0]);
      var once := Replace(tail, '\\', "\\\\");
      ReplaceConcat(head, tail, '\\', "\\\\");
      ReplaceConcat(Replace(head, '\\', "\\\\"), once, '%', "\\%");
      ReplaceConcat(Replace(Replace(head, '\\', "\\\\"), '%', "\\%"), Replace(once, '%', "\\%"), '_', "\\_");
    }
  }

  lemma LikeEscapedHead(s: string, c: char, pattern: string)
    ensures Like(s, (if c in "\\%_" then ['\\', c] else [c]) + pattern) <==>
        s != "" && s[0] == c && Like(s[1..], pattern)
  {
    if c in "\\%_" {
      assert (['\\', c] + pattern)[2..] == pattern;
    } else {
      assert ([c] + pattern)[1..] == pattern;
    }
  }

  /** An escaped text in front of a pattern consumes exactly that text. */
  lemma {:induction false} LikeEscaped(s: string, v: string, rest: string)
    ensures Like(s, EscapeOnce(v) + rest) <==> |v| <= |s| && s[..|v|] == v && Like(s[|v|..], rest)
    decreases |v|
  {
    if v == "" {
      assert EscapeOnce(v) + rest == rest;
      assert s[0..] == s;
    } else {
      var tail := EscapeOnce(v[1..]) + rest;
      assert EscapeOnce(v) + rest == (if v[0] in "\\%_" then ['\\', v[0]] else [v[0]]) + tail;
      LikeEscapedHead(s, v[0], tail);
      if s != "" {
        LikeEscaped(s[1..], v[1..], rest);
        if |v| <= |s| { SplitHead(s, v); }
      }
    }
  }

  lemma SplitHead(s: string, v: string)
    requires s != "" && v != "" && |v| <= |s|
    ensures s[..|v|] == v <==> s[0] == v[0] && s[1..][..|v| - 1] == v[1..]
    ensures s[1..][|v| - 1..] == s[|v|..]
  {
    assert s[..|v|] == [s[0]] + s[1..][..|v| - 1] && v == [v[0]] + v[1..];
  }

  lemma {:induction false} PercentMatchesAll(s: string)
    ensures Like(s, "%")
  {
    if s != "" {
      PercentMatchesAll(s[1..]);
    } else {
      assert Like(s, "%"[1..]);
    }
  }

  lemma {:induction false} PercentThen(s: string, pattern: string)
    ensures Like(s, "%" + pattern) <==> exists i :: 0 <= i <= |s| && Like(s[i..], pattern)
    decreases |s|
  {
    var p := "%" + pattern;
    assert p[1..] == pattern;
    assert s[0..] == s;
    if s != "" {
      PercentThen(s[1..], pattern);
      forall i | 0 <= i <= |s[1..]| ensures s[1..][i..] == s[i + 1..] { }
      if i :| 0 <= i <= |s| && Like(s[i..], pattern) {
        assert i > 0 ==> s[1..][i - 1..] == s[i..];
      }
      if Like(s[1..], p) {
        var i :| 0 <= i <= |s[1..]| && Like(s[1..][i..], pattern);
        assert Like(s[i + 1..], pattern);
      }
    }
  }

  ghost predicate OccursAt(s: string, v: string, i: nat)
  {
    i + |v| <= |s| && s[i..i + |v|] == v
  }

  ghost predicate Contains(s: string, v: string)
  {
    exists i: nat :: OccursAt(s, v, i)
  }

  /** Prefix search: `escape(v)%` matches exactly the strings that start with `v`. */
  lemma PrefixSearchExact(s: string, v: string)
    ensures Like(s, EscapeLikePattern(v) + "%") <==> v <= s
  {
    EscapeIsOnePass(v);
    LikeEscaped(s, v, "%");
    if |v| <= |s| { PercentMatchesAll(s[|v|..]); }
  }

  /** Substring search: `%escape(v)%` matches exactly the strings that contain `v`. */
  lemma SubstringSearchExact(s: string, v: string)
    ensures Like(s, "%" + EscapeLikePattern(v) + "%") <==> Contains(s, v)
  {
    var p := EscapeLikePattern(v) + "%";
    assert "%" + EscapeLikePattern(v) + "%" == "%" + p;
    PercentThen(s, p);
    forall i | 0 <= i <= |s|
      ensures Like(s[i..], p) <==> OccursAt(s, v, i)
    {
      PrefixSearchExact(s[i..], v);
      if i <= |s| - |v| { assert s[i..][..|v|] == s[i..i + |v|]; }
    }
  }
}
