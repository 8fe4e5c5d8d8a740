/**
 * SQLite's `LIKE` operator as used by the snippet search
 * (`abbv LIKE ? OR value LIKE ?` with the argument `%filter%`).
 * With no ESCAPE clause and `case_sensitive_like` off (SQLite's defaults):
 * `%` matches any run of characters, `_` matches exactly one character, and
 * every other character matches itself, ignoring case for ASCII letters only.
 */
module Like {

  /** ASCII upper-case letters fold to lower case; nothing else is folded. */
  function FoldAscii(c: char): (r: char)
    ensures 'A' <= c <= 'Z' ==> r as int == c as int + 32
    ensures !('A' <= r <= 'Z')
    ensures 'a' <= c <= 'z' || !('A' <= c <= 'Z') ==> r == c
  {
    if 'A' <= c <= 'Z' then (c as int + 32) as char else c
  }

  /** One non-wildcard pattern character against one text character. */
  predicate CharLike(p: char, c: char) {
    FoldAscii(p) == FoldAscii(c)
  }

  predicate IsWildcard(c: char) {
    c == '%' || c == '_'
  }

  predicate NoWildcards(f: string) {
    forall i :: 0 <= i < |f| ==> !IsWildcard(f[i])
  }

  /**
   * `s LIKE p`. A pattern without wildcards matches exactly the texts equal
   * to it up to ASCII case.
   */
  predicate Like(p: string, s: string): (r: bool)
    ensures NoWildcards(p) ==> (r <==> FoldEq(p, s))
    decreases |p| + |s|
  {
    if |p| == 0 then |s| == 0
    else if p[0] == '%' then Like(p[1..], s) || (|s| > 0 && Like(p, s[1..]))
    else
      FoldEqCons(p, s);
      |s| > 0 && (p[0] == '_' || CharLike(p[0], s[0])) && Like(p[1..], s[1..])
  }

  /** Folded equality, one leading character at a time. */
  lemma FoldEqCons(f: string, t: string)
    requires |f| > 0
    ensures NoWildcards(f) ==> NoWildcards(f[1..])
    ensures FoldEq(f, t) <==> |t| > 0 && CharLike(f[0], t[0]) && FoldEq(f[1..], t[1..])
  {
    if |t| > 0 && CharLike(f[0], t[0]) && FoldEq(f[1..], t[1..]) {
      forall i | 0 <= i < |f| ensures CharLike(f[i], t[i]) {
        if i > 0 {
          assert f[1..][i - 1] == f[i] && t[1..][i - 1] == t[i];
        }
      }
    }
  }

  /** The pattern the search binds: the filter text between two `%`. */
  function ContainsPattern(filter: string): (p: string)
    ensures |p| == |filter| + 2 && p[0] == '%' && p[|p| - 1] == '%'
    ensures p[1..|p| - 1] == filter
  {
    "%" + filter + "%"
  }

  /** `t` equals `f` up to ASCII case. */
  predicate FoldEq(f: string, t: string) {
    |f| == |t| && forall i :: 0 <= i < |f| ==> CharLike(f[i], t[i])
  }

  /** `f` occurs in `s` at position `i`, up to ASCII case. */
  predicate OccursAt(s: string, f: string, i: nat) {
    i + |f| <= |s| && FoldEq(f, s[i..i + |f|])
  }

  /** `f` occurs somewhere in `s`, up to ASCII case. */
  predicate ContainsFolded(s: string, f: string) {
    exists i: nat | i <= |s| :: OccursAt(s, f, i)
  }

  /** A lone `%` matches every text. */
  lemma {:induction false} PercentMatchesAll(s: string)
    ensures Like("%", s)
    decreases |s|
  {
    if |s| > 0 {
      PercentMatchesAll(s[1..]);
    }
  }

  /** The empty filter, `%%`, matches every text: an empty search lists every snippet. */
  lemma EmptyFilterMatchesAll(s: string)
    ensures Like(ContainsPattern(""), s)
  {
    assert ContainsPattern("") == "%%";
    PercentMatchesAll(s);
  }

  /** A wildcard-free `f` followed by `%` matches exactly the texts that start with `f`, up to case. */
  lemma {:induction false} PrefixLike(f: string, s: string)
    requires NoWildcards(f)
    ensures Like(f + "%", s) <==> |f| <= |s| && FoldEq(f, s[..|f|])
    decreases |f|
  {
    if |f| == 0 {
      assert f + "%" == "%";
      PercentMatchesAll(s);
    } else {
      var p := f + "%";
      assert p[0] == f[0] && p[1..] == f[1..] + "%";
      assert !IsWildcard(f[0]);
      PrefixLike(f[1..], if |s| > 0 then s[1..] else s);
      if |s| > 0 && |f| <= |s| {
        var t := s[..|f|];
        assert t[0] == s[0] && t[1..] == s[1..][..|f| - 1];
        if FoldEq(f, t) {
          assert FoldEq(f[1..], s[1..][..|f| - 1]) by {
            forall i | 0 <= i < |f| - 1
              ensures CharLike(f[1..][i], s[1..][..|f| - 1][i])
            {
              assert f[1..][i] == f[i + 1] && s[1..][..|f| - 1][i] == t[i + 1];
            }
          }
        }
        if CharLike(f[0], s[0]) && FoldEq(f[1..], s[1..][..|f| - 1]) {
          forall i | 0 <= i < |f|
            ensures CharLike(f[i], t[i])
          {
            if i > 0 {
              assert f[i] == f[1..][i - 1] && t[i] == s[1..][..|f| - 1][i - 1];
            }
          }
        }
      }
    }
  }

  /** A leading `%` lets the rest of the pattern match any suffix. */
  lemma {:induction false} LeadingPercent(q: string, s: string)
    ensures Like("%" + q, s) <==> exists i :: 0 <= i <= |s| && Like(q, s[i..])
    decreases |s|
  {
    var p := "%" + q;
    assert p[0] == '%' && p[1..] == q;
    assert s[0..] == s;
    if |s| > 0 {
      LeadingPercent(q, s[1..]);
      if Like(p, s) && !Like(q, s) {
        var i :| 0 <= i <= |s| - 1 && Like(q, s[1..][i..]);
        assert s[1..][i..] == s[i + 1..];
      }
      if exists i :: 0 <= i <= |s| && Like(q, s[i..]) {
        var i :| 0 <= i <= |s| && Like(q, s[i..]);
        if i > 0 {
          assert s[1..][i - 1..] == s[i..];
        }
      }
    }
  }

  /**
   * For a filter without `%` or `_`, the search condition `x LIKE '%filter%'`
   * is exactly "the filter occurs in x, ignoring ASCII case".
   */
  lemma SearchConditionIsSubstring(f: string, s: string)
    requires NoWildcards(f)
    ensures Like(ContainsPattern(f), s) <==> ContainsFolded(s, f)
  {
    assert ContainsPattern(f) == "%" + (f + "%");
    LeadingPercent(f + "%", s);
    if Like(ContainsPattern(f), s) {
      var i :| 0 <= i <= |s| && Like(f + "%", s[i..]);
      PrefixLike(f, s[i..]);
      assert s[i..][..|f|] == s[i..i + |f|];
      assert OccursAt(s, f, i);
    }
    if ContainsFolded(s, f) {
      var i: nat :| i <= |s| && OccursAt(s, f, i);
      PrefixLike(f, s[i..]);
      assert s[i..][..|f|] == s[i..i + |f|];
      assert Like(f + "%", s[i..]);
    }
  }
}
