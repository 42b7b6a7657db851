/** Python's `fnmatch.fnmatch(name, pattern)` on POSIX (case-sensitive) for
    patterns whose only wildcard is `*`: `*` matches any run of characters,
    newlines included, and every other character matches itself. */
module Glob {
  import opened Text

  predicate Match(s: string, p: string)
    decreases |p|, |s|
  {
    if |p| == 0 then |s| == 0
    else if p[0] == '*' then Match(s, p[1..]) || (|s| > 0 && Match(s[1..], p))
    else |s| > 0 && s[0] == p[0] && Match(s[1..], p[1..])
  }

  predicate NoStar(p: string)
  {
    '*' !in p
  }

  /** A pattern without `*` matches exactly itself. */
  lemma {:induction false} LiteralPattern(s: string, p: string)
    requires NoStar(p)
    ensures Match(s, p) <==> s == p
  {
    if |p| > 0 && |s| > 0 {
      LiteralPattern(s[1..], p[1..]);
      assert s == [s[0]] + s[1..] && p == [p[0]] + p[1..];
    }
  }

  /** `*` alone matches everything. */
  lemma {:induction false} StarMatchesAll(s: string)
    ensures Match(s, "*")
  {
    if |s| > 0 {
      StarMatchesAll(s[1..]);
    } else {
      assert "*"[1..] == "";
    }
  }

  /** `q*` for a literal `q` matches exactly the strings that start with `q`. */
  lemma {:induction false} PrefixPattern(s: string, q: string)
    requires NoStar(q)
    ensures Match(s, q + "*") <==> StartsWith(s, q)
  {
    if |q| == 0 {
      assert q + "*" == "*";
      StarMatchesAll(s);
    } else if |s| > 0 {
      assert (q + "*")[1..] == q[1..] + "*";
      PrefixPattern(s[1..], q[1..]);
      if StartsWith(s, q) {
        assert s[1..][..|q| - 1] == s[..|q|][1..];
      }
      if StartsWith(s[1..], q[1..]) && s[0] == q[0] {
        assert s[..|q|] == [s[0]] + s[1..][..|q| - 1];
        assert q == [q[0]] + q[1..];
      }
    }
  }

  /** Every string matches itself used as a pattern (a `*` in it can stand for
      itself). */
  lemma {:induction false} MatchSelf(s: string)
    ensures Match(s, s)
  {
    if |s| > 0 {
      MatchSelf(s[1..]);
      if s[0] == '*' {
        StarTakesOne(s[1..], s[1..]);
        assert ['*'] + s[1..] == s;
      }
    }
  }

  /** `*rest` matches `*t` when `rest` matches `t`: the star consumes the
      literal `*`. */
  lemma StarTakesOne(t: string, rest: string)
    requires Match(t, rest)
    ensures Match(['*'] + t, ['*'] + rest)
  {
    var s := ['*'] + t;
    var p := ['*'] + rest;
    assert p[1..] == rest;
    assert s[1..] == t;
    assert Match(t, p[1..]);
    assert Match(s[1..], p);
  }
}
