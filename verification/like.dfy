/** SQLite's `LIKE` operator without an ESCAPE clause, as `EF.Functions.Like`
    issues it: `%` matches any run of characters, `_` any one character, and
    other characters match ignoring ASCII case. */
module Like {
  import opened Text

  predicate IsWildcard(c: char) {
    c == '%' || c == '_'
  }

  predicate NoWildcards(s: string) {
    forall i :: 0 <= i < |s| ==> !IsWildcard(s[i])
  }

  /** `s LIKE p`. */
  predicate LikeMatch(s: string, p: string)
    decreases |s| + |p|
  {
    if |p| == 0 then |s| == 0
    else if p[0] == '%' then LikeMatch(s, p[1..]) || (|s| > 0 && LikeMatch(s[1..], p))
    else |s| > 0 && (p[0] == '_' || LowerChar(s[0]) == LowerChar(p[0])) && LikeMatch(s[1..], p[1..])
  }

  /** A lone `%` matches everything. */
  lemma {:induction false} PercentMatchesAll(s: string)
    ensures LikeMatch(s, "%")
  {
    if |s| > 0 {
      PercentMatchesAll(s[1..]);
    }
  }

  /** `s LIKE k%` for a literal `k`: `s` starts with `k`, ignoring case. */
  lemma {:induction false} LikePrefix(s: string, k: string)
    requires NoWildcards(k)
    ensures LikeMatch(s, k + "%") <==> |k| <= |s| && Lower(s[..|k|]) == Lower(k)
  {
    if |k| == 0 {
      assert k + "%" == "%";
      PercentMatchesAll(s);
      assert Lower(s[..0]) == Lower(k);
    } else {
      var p := k + "%";
      assert p[0] == k[0] && p[1..] == k[1..] + "%";
      LikePrefix(if |s| > 0 then s[1..] else s, k[1..]);
      if |s| > 0 && |k| <= |s| {
        LowerSplit(s[..|k|], k);
        assert s[..|k|][1..] == s[1..][..|k| - 1];
      }
    }
  }

  /** Two equally long non-empty strings agree ignoring case exactly when
      their first characters and their tails do. */
  lemma LowerSplit(a: string, b: string)
    requires |a| == |b| > 0
    ensures Lower(a) == Lower(b) <==> LowerChar(a[0]) == LowerChar(b[0]) && Lower(a[1..]) == Lower(b[1..])
  {
    assert Lower(a)[0] == LowerChar(a[0]) && Lower(b)[0] == LowerChar(b[0]);
    assert Lower(a)[1..] == Lower(a[1..]);
    assert Lower(b)[1..] == Lower(b[1..]);
    if LowerChar(a[0]) == LowerChar(b[0]) && Lower(a[1..]) == Lower(b[1..]) {
      assert Lower(a) == [Lower(a)[0]] + Lower(a)[1..];
      assert Lower(b) == [Lower(b)[0]] + Lower(b)[1..];
    }
  }

  /** `q` matches the suffix of `s` starting at `i`. */
  predicate LikeFrom(s: string, q: string, i: int)
    requires 0 <= i <= |s|
  {
    LikeMatch(s[i..], q)
  }

  /** A leading `%` lets the rest of the pattern match any suffix. */
  lemma {:induction false} LikeAnySuffix(s: string, q: string)
    ensures LikeMatch(s, "%" + q) <==> exists i :: 0 <= i <= |s| && LikeFrom(s, q, i)
  {
    var p := "%" + q;
    assert p[0] == '%' && p[1..] == q;
    assert s[0..] == s;
    assert LikeFrom(s, q, 0) == LikeMatch(s, q);
    if |s| > 0 {
      LikeAnySuffix(s[1..], q);
      forall i | 1 <= i <= |s| ensures LikeFrom(s, q, i) == LikeFrom(s[1..], q, i - 1) {
        assert s[i..] == s[1..][i - 1..];
      }
      if LikeMatch(s[1..], p) {
        var i :| 0 <= i <= |s[1..]| && LikeFrom(s[1..], q, i);
        assert LikeFrom(s, q, i + 1);
      }
      if exists i :: 0 <= i <= |s| && LikeFrom(s, q, i) {
        var i :| 0 <= i <= |s| && LikeFrom(s, q, i);
        if i > 0 {
          assert LikeFrom(s[1..], q, i - 1);
        }
      }
    } else {
      assert LikeMatch(s, p) == LikeMatch(s, q);
    }
  }

  /** The search pattern `%k%` built from a literal `k` is exactly a
      case-insensitive substring test. */
  lemma SubstringPattern(s: string, k: string)
    requires NoWildcards(k)
    ensures LikeMatch(s, "%" + k + "%") <==> ContainsIgnoreCase(s, k)
  {
    assert "%" + k + "%" == "%" + (k + "%");
    LikeAnySuffix(s, k + "%");
    forall i | 0 <= i <= |s|
      ensures LikeFrom(s, k + "%", i) <==> (i <= |s| - |k| && OccursAt(Lower(s), Lower(k), i))
    {
      LikePrefix(s[i..], k);
      if i <= |s| - |k| {
        assert s[i..][..|k|] == s[i..i + |k|];
        assert Lower(s)[i..i + |k|] == Lower(s[i..i + |k|]);
      }
    }
    if ContainsIgnoreCase(s, k) {
      var i :| 0 <= i <= |Lower(s)| - |Lower(k)| && OccursAt(Lower(s), Lower(k), i);
      assert LikeFrom(s, k + "%", i);
    }
  }
}
