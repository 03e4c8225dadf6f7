/** The SQL `LIKE` operator as SQLite evaluates it without an `ESCAPE` clause:
    `%` matches any run of characters, `_` any one character, and every other
    character matches itself with ASCII letters compared case-insensitively. */
module SqlLike {

  /** SQLite's `LIKE` folds only the ASCII letters A-Z onto a-z. */
  function Fold(c: char): char
  {
    if 'A' <= c <= 'Z' then (c as int + 32) as char else c
  }

  /** `s LIKE pat`. */
  predicate Like(pat: string, s: string)
    decreases |pat| + |s|
  {
    if pat == [] then s == []
    else if pat[0] == '%' then Like(pat[1..], s) || (s != [] && Like(pat, s[1..]))
    else s != [] && (pat[0] == '_' || Fold(pat[0]) == Fold(s[0])) && Like(pat[1..], s[1..])
  }

  predicate NoWildcards(t: string)
  {
    '%' !in t && '_' !in t
  }

  /** Equal strings once ASCII letters are folded. */
  predicate FoldEq(t: string, u: string)
  {
    |t| == |u| && forall k :: 0 <= k < |t| ==> Fold(t[k]) == Fold(u[k])
  }

  predicate FoldOccursAt(t: string, s: string, i: int)
  {
    0 <= i && i + |t| <= |s| && FoldEq(t, s[i..i + |t|])
  }

  /** `t` is a substring of `s`, ignoring the case of ASCII letters. */
  predicate ContainsIgnoringCase(s: string, t: string)
  {
    exists i :: 0 <= i <= |s| - |t| && FoldOccursAt(t, s, i)
  }

  /** `%` alone matches every string. */
  lemma {:induction false} LikeAnything(s: string)
    ensures Like("%", s)
  {
    if s != [] {
      LikeAnything(s[1..]);
    }
  }

  /** A leading `%` lets the rest of the pattern match any suffix. */
  lemma {:induction false} LikeLeadingPercent(q: string, s: string)
    ensures Like(['%'] + q, s) <==> exists i :: 0 <= i <= |s| && Like(q, s[i..])
  {
    var p := ['%'] + q;
    assert p[0] == '%' && p[1..] == q;
    assert s[0..] == s;
    if s != [] {
      LikeLeadingPercent(q, s[1..]);
      forall i | 0 <= i <= |s| - 1 ensures s[1..][i..] == s[i + 1..] { }
      if Like(p, s) && !Like(q, s) {
        var i :| 0 <= i <= |s| - 1 && Like(q, s[1..][i..]);
        assert Like(q, s[i + 1..]);
      }
      if exists i :: 0 <= i <= |s| && Like(q, s[i..]) {
        var i :| 0 <= i <= |s| && Like(q, s[i..]);
        if i > 0 {
          assert Like(q, s[1..][i - 1..]);
        }
      }
    }
  }

  /** A wildcard-free prefix of the pattern must match a prefix of the string, ignoring case. */
  lemma {:induction false} LikeLiteralPrefix(t: string, q: string, s: string)
    requires NoWildcards(t)
    ensures Like(t + q, s) <==> |t| <= |s| && FoldEq(t, s[..|t|]) && Like(q, s[|t|..])
  {
    if t == [] {
      assert t + q == q && s[..0] == [] && s[0..] == s;
    } else {
      var p := t + q;
      assert p[0] == t[0] && p[1..] == t[1..] + q;
      assert t[0] in t;
      assert NoWildcards(t[1..]) by {
        assert forall c :: c in t[1..] ==> c in t;
      }
      if s != [] {
        LikeLiteralPrefix(t[1..], q, s[1..]);
        if |t| <= |s| {
          assert s[1..][..|t| - 1] == s[1..|t|];
          assert s[1..][|t| - 1..] == s[|t|..];
          if FoldEq(t, s[..|t|]) {
            assert Fold(t[0]) == Fold(s[0]) by { assert s[..|t|][0] == s[0]; }
            assert FoldEq(t[1..], s[1..|t|]) by {
              forall k | 0 <= k < |t| - 1 ensures Fold(t[1..][k]) == Fold(s[1..|t|][k]) {
                assert s[1..|t|][k] == s[..|t|][k + 1];
              }
            }
          }
          if Fold(t[0]) == Fold(s[0]) && FoldEq(t[1..], s[1..|t|]) {
            forall k | 0 <= k < |t| ensures Fold(t[k]) == Fold(s[..|t|][k]) {
              if k > 0 { assert s[..|t|][k] == s[1..|t|][k - 1]; }
            }
          }
        }
      }
    }
  }

  /** The patterns the catalog builds, `%term%`, are case-insensitive substring tests
      as long as the term itself carries no wildcard. */
  lemma ContainsPattern(t: string, s: string)
    requires NoWildcards(t)
    ensures Like("%" + t + "%", s) <==> ContainsIgnoringCase(s, t)
  {
    assert "%" + t + "%" == ['%'] + (t + "%");
    LikeLeadingPercent(t + "%", s);
    forall i | 0 <= i <= |s|
      ensures Like(t + "%", s[i..]) <==> FoldOccursAt(t, s, i)
    {
      LikeLiteralPrefix(t, "%", s[i..]);
      if |t| <= |s[i..]| {
        LikeAnything(s[i..][|t|..]);
        assert s[i..][..|t|] == s[i..i + |t|];
      }
    }
  }
}
