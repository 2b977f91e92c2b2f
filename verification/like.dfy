/** SQLite's `LIKE` operator with its default settings: `%` matches any run of
    characters, `_` matches exactly one, there is no escape character, and letters
    are compared case-insensitively in the ASCII range only. */
module Like {
  import opened Text

  predicate IsWildcard(c: char)
  {
    c == '%' || c == '_'
  }

  predicate NoWildcards(k: string)
  {
    forall i :: 0 <= i < |k| ==> !IsWildcard(k[i])
  }

  /** `s LIKE p`. A pattern without `%` matches only strings of its own length. */
  predicate Like(p: string, s: string)
    ensures Like(p, s) && '%' !in p ==> |s| == |p|
    decreases |p| + |s|
  {
    if |p| == 0 then |s| == 0
    else if p[0] == '%' then Like(p[1..], s) || (|s| > 0 && Like(p, s[1..]))
    else if |s| == 0 then false
    else if p[0] == '_' then Like(p[1..], s[1..])
    else LowerChar(p[0]) == LowerChar(s[0]) && Like(p[1..], s[1..])
  }

  /** The pattern `'%' || k || '%'` that `BookDAO.searchBooks` binds. */
  function InfixPattern(k: string): (p: string)
    ensures |p| == |k| + 2 && p[0] == '%' && p[|p| - 1] == '%'
    ensures p[1..|p| - 1] == k
  {
    "%" + k + "%"
  }

  /** A lone `%` matches every string. */
  lemma {:induction false} PercentMatchesAll(s: string)
    ensures Like("%", s)
    decreases |s|
  {
    if |s| > 0 {
      PercentMatchesAll(s[1..]);
    }
  }

  /** `%%` (the pattern for the empty keyword) matches every string. */
  lemma EmptyInfixMatchesAll(s: string)
    ensures Like(InfixPattern(""), s)
  {
    assert InfixPattern("") == "%%";
    assert "%%"[1..] == "%";
    PercentMatchesAll(s);
  }

  /** Without wildcards, `s LIKE k || '%'` says that `k` is a case-insensitive prefix of `s`. */
  lemma {:induction false} PrefixPattern(k: string, s: string)
    requires NoWildcards(k)
    ensures Like(k + "%", s) <==> IsPrefix(Lower(k), Lower(s))
    decreases |k|
  {
    if |k| == 0 {
      assert k + "%" == "%";
      PercentMatchesAll(s);
    } else {
      var p := k + "%";
      assert p[0] == k[0] && !IsWildcard(k[0]);
      assert p[1..] == k[1..] + "%";
      if |s| > 0 {
        PrefixPattern(k[1..], s[1..]);
        PrefixStep(k, s);
      }
    }
  }

  /** A prefix test on folded strings, one character at a time. */
  lemma PrefixStep(k: string, s: string)
    requires |k| > 0 && |s| > 0
    ensures IsPrefix(Lower(k), Lower(s))
            <==> LowerChar(k[0]) == LowerChar(s[0]) && IsPrefix(Lower(k[1..]), Lower(s[1..]))
  {
    LowerSlice(k, 1, |k|);
    LowerSlice(s, 1, |s|);
    if IsPrefix(Lower(k), Lower(s)) {
      assert Lower(k)[1..] == Lower(s)[1..][..|k| - 1];
    }
    if IsPrefix(Lower(k[1..]), Lower(s[1..])) && LowerChar(k[0]) == LowerChar(s[0]) {
      assert Lower(s)[..|k|] == [Lower(s)[0]] + Lower(s)[1..][..|k| - 1];
      assert Lower(k) == [Lower(k)[0]] + Lower(k)[1..];
    }
  }

  /** Without wildcards, `s LIKE '%' || k || '%'` is exactly a case-insensitive
      substring test. */
  lemma {:induction false} InfixPatternIsContains(k: string, s: string)
    requires NoWildcards(k)
    ensures Like(InfixPattern(k), s) <==> Contains(Lower(s), Lower(k))
    decreases |s|
  {
    var p := InfixPattern(k);
    assert p[1..] == k + "%";
    PrefixPattern(k, s);
    if |s| > 0 {
      InfixPatternIsContains(k, s[1..]);
      LowerSlice(s, 1, |s|);
      assert s[1..|s|] == s[1..];
      assert Lower(s)[1..] == Lower(s[1..]);
      assert Like(p, s) == (Like(k + "%", s) || Like(p, s[1..]));
    }
  }

  /** Why the wildcards matter: the keyword `_` is not a substring test, it matches
      every non-empty string. */
  lemma UnderscoreMatchesAnyNonEmpty(s: string)
    requires |s| > 0
    ensures Like(InfixPattern("_"), s)
  {
    var p := InfixPattern("_");
    assert p == "%_%";
    assert p[1..] == "_%";
    assert p[1..][1..] == "%";
    PercentMatchesAll(s[1..]);
    assert Like(p[1..], s);
  }
}
