/**
  The SQL `<like predicate>` of ISO/IEC 9075-2 without an escape character:
  in a pattern `%` stands for any run of characters, `_` for exactly one
  character, and every other character for itself.
 */
module Like {

  /** True iff the whole of `s` matches the LIKE pattern `p`. */
  predicate LikeMatch(s: string, p: string)
    decreases |p|, |s|
  {
    if |p| == 0 then |s| == 0
    else if p[0] == '%' then LikeMatch(s, p[1..]) || (|s| > 0 && LikeMatch(s[1..], p))
    else |s| > 0 && (p[0] == '_' || p[0] == s[0]) && LikeMatch(s[1..], p[1..])
  }

  /** True iff `v` holds neither LIKE wildcard. */
  predicate NoWildcards(v: string)
  {
    forall i :: 0 <= i < |v| ==> v[i] != '%' && v[i] != '_'
  }

  predicate IsPrefix(v: string, s: string)
  {
    |v| <= |s| && s[..|v|] == v
  }

  predicate IsSuffix(v: string, s: string)
  {
    |v| <= |s| && s[|s| - |v|..] == v
  }

  /** True iff `v` occurs somewhere in `s`. */
  predicate IsSubstring(v: string, s: string)
  {
    exists i :: 0 <= i <= |s| && IsPrefix(v, s[i..])
  }

  /** A lone `%` matches every string. */
  lemma {:induction false} PercentMatchesAll(s: string)
    ensures LikeMatch(s, "%")
    decreases |s|
  {
    if |s| > 0 {
      PercentMatchesAll(s[1..]);
    }
  }

  /** A wildcard-free pattern matches exactly itself. */
  lemma {:induction false} LiteralPattern(s: string, v: string)
    requires NoWildcards(v)
    ensures LikeMatch(s, v) <==> s == v
    decreases |v|
  {
    if |v| > 0 && |s| > 0 {
      LiteralPattern(s[1..], v[1..]);
      if s[0] == v[0] && s[1..] == v[1..] {
        assert s == [s[0]] + s[1..];
        assert v == [v[0]] + v[1..];
      }
    }
  }

  /** `v%` matches exactly the strings that start with `v`. */
  lemma {:induction false} PrefixPattern(s: string, v: string)
    requires NoWildcards(v)
    ensures LikeMatch(s, v + "%") <==> IsPrefix(v, s)
    decreases |v|
  {
    if |v| == 0 {
      assert v + "%" == "%";
      PercentMatchesAll(s);
    } else {
      var p := v + "%";
      assert p[0] == v[0] && p[1..] == v[1..] + "%";
      if |s| > 0 {
        PrefixPattern(s[1..], v[1..]);
        if IsPrefix(v, s) {
          assert s[1..][..|v| - 1] == s[..|v|][1..];
        }
        if IsPrefix(v[1..], s[1..]) && s[0] == v[0] {
          assert s[..|v|] == [s[0]] + s[1..][..|v| - 1];
          assert v == [v[0]] + v[1..];
        }
      }
    }
  }

  /** `%v` matches exactly the strings that end with `v`. */
  lemma {:induction false} SuffixPattern(s: string, v: string)
    requires NoWildcards(v)
    ensures LikeMatch(s, "%" + v) <==> IsSuffix(v, s)
    decreases |s|
  {
    var p := "%" + v;
    assert p[0] == '%' && p[1..] == v;
    LiteralPattern(s, v);
    if |s| > 0 {
      SuffixPattern(s[1..], v);
      if IsSuffix(v, s) && s != v {
        assert |v| < |s|;
        assert s[1..][|s| - 1 - |v|..] == s[|s| - |v|..];
      }
      if IsSuffix(v, s[1..]) {
        assert s[1..][|s| - 1 - |v|..] == s[|s| - |v|..];
      }
    }
  }

  /** `%v%` matches exactly the strings that contain `v`. */
  lemma {:induction false} ContainsPattern(s: string, v: string)
    requires NoWildcards(v)
    ensures LikeMatch(s, "%" + v + "%") <==> IsSubstring(v, s)
    decreases |s|
  {
    var p := "%" + v + "%";
    assert p[0] == '%' && p[1..] == v + "%";
    PrefixPattern(s, v);
    if IsPrefix(v, s) {
      assert IsPrefix(v, s[0..]);
    }
    if |s| > 0 {
      ContainsPattern(s[1..], v);
      if IsSubstring(v, s[1..]) {
        var i :| 0 <= i <= |s[1..]| && IsPrefix(v, s[1..][i..]);
        assert s[1..][i..] == s[i + 1..];
        assert IsPrefix(v, s[i + 1..]);
      }
      if IsSubstring(v, s) && !IsPrefix(v, s) {
        var i :| 0 <= i <= |s| && IsPrefix(v, s[i..]);
        assert i != 0 by { assert s[0..] == s; }
        assert s[1..][i - 1..] == s[i..];
        assert IsSubstring(v, s[1..]);
      }
    } else {
      if IsSubstring(v, s) {
        var i :| 0 <= i <= |s| && IsPrefix(v, s[i..]);
        assert i == 0 && s[i..] == s;
      }
    }
  }

  /**
    Wildcards inside the searched-for text keep their meaning: `%a_c%`
    matches "abc" although "a_c" does not occur in it.
   */
  lemma WildcardInSearchText()
    ensures LikeMatch("abc", "%" + "a_c" + "%")
    ensures !IsSubstring("a_c", "abc")
  {
    var p := "%" + "a_c" + "%";
    assert p[1..] == "a_c%";
    assert LikeMatch("", "%");
    assert LikeMatch("c", "c%") by { assert "c%"[1..] == "%"; assert "c"[1..] == ""; }
    assert LikeMatch("bc", "_c%") by { assert "_c%"[1..] == "c%"; assert "bc"[1..] == "c"; }
    assert LikeMatch("abc", "a_c%") by { assert "a_c%"[1..] == "_c%"; assert "abc"[1..] == "bc"; }
    assert LikeMatch("abc", p[1..]);
    forall i | 0 <= i <= 3
      ensures !IsPrefix("a_c", "abc"[i..])
    {
      if i == 0 {
        assert "abc"[0..][..3][1] == 'b';
      }
    }
  }
}
