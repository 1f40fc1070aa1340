/** SQLite's default LIKE operator, as search_games uses it with the pattern
    "%" + term + "%": '%' matches any run of characters, '_' any single
    character, and letters compare ASCII-case-insensitively. No ESCAPE
    clause is given, so no character escapes a wildcard. */
module SqlLike {

  /** SQLite folds only the 26 ASCII letters when comparing under LIKE. */
  function FoldAscii(c: char): (d: char)
    ensures 'A' <= c <= 'Z' ==> d as int == c as int + 32
    ensures !('A' <= c <= 'Z') ==> d == c
    ensures !('A' <= d <= 'Z')
  {
    if 'A' <= c <= 'Z' then (c as int + 32) as char else c
  }

  predicate IsWildcard(c: char) {
    c == '%' || c == '_'
  }

  predicate NoWildcards(term: string) {
    forall i :: 0 <= i < |term| ==> !IsWildcard(term[i])
  }

  /** s LIKE p. */
  predicate Like(s: string, p: string)
    decreases |s| + |p|
  {
    if |p| == 0 then |s| == 0
    else if p[0] == '%' then Like(s, p[1..]) || (|s| > 0 && Like(s[1..], p))
    else |s| > 0 && (p[0] == '_' || FoldAscii(s[0]) == FoldAscii(p[0])) && Like(s[1..], p[1..])
  }

  /** term occurs in s at position i, up to ASCII case. */
  predicate MatchesAt(s: string, term: string, i: nat) {
    i + |term| <= |s| && forall j :: 0 <= j < |term| ==> FoldAscii(s[i + j]) == FoldAscii(term[j])
  }

  /** term occurs somewhere in s, up to ASCII case. */
  predicate ContainsFolded(s: string, term: string) {
    exists i: nat :: i <= |s| && MatchesAt(s, term, i)
  }

  /** A pattern of '%' alone matches every string. */
  lemma {:induction false} PercentMatchesAll(s: string)
    ensures Like(s, "%")
  {
    assert "%"[1..] == "";
    if |s| > 0 {
      PercentMatchesAll(s[1..]);
    }
  }

  /** A wildcard-free term followed by '%' matches exactly the strings that
      start with the term. */
  lemma {:induction false} PrefixLike(s: string, term: string)
    requires NoWildcards(term)
    ensures Like(s, term + "%") <==> MatchesAt(s, term, 0)
  {
    if |term| == 0 {
      assert term + "%" == "%";
      PercentMatchesAll(s);
    } else {
      var p := term + "%";
      assert p[0] == term[0] && p[1..] == term[1..] + "%";
      if |s| > 0 {
        PrefixLike(s[1..], term[1..]);
        if MatchesAt(s[1..], term[1..], 0) && FoldAscii(s[0]) == FoldAscii(term[0]) {
          forall j | 0 <= j < |term| ensures FoldAscii(s[j]) == FoldAscii(term[j]) {
            if j > 0 {
              assert s[1..][j - 1] == s[j] && term[1..][j - 1] == term[j];
            }
          }
        }
        if MatchesAt(s, term, 0) {
          assert FoldAscii(s[0]) == FoldAscii(term[0]);
          forall j | 0 <= j < |term| - 1 ensures FoldAscii(s[1..][j]) == FoldAscii(term[1..][j]) {
            assert s[1..][j] == s[j + 1] && term[1..][j] == term[j + 1];
          }
        }
      }
    }
  }

  /** A leading '%' lets the rest of the pattern match any suffix. */
  lemma {:induction false} LeadingPercent(s: string, q: string)
    ensures Like(s, "%" + q) <==> exists i :: 0 <= i <= |s| && Like(s[i..], q)
  {
    var p := "%" + q;
    assert p[0] == '%' && p[1..] == q;
    assert s[0..] == s;
    if |s| > 0 {
      LeadingPercent(s[1..], q);
      if Like(s[1..], p) {
        var i :| 0 <= i <= |s[1..]| && Like(s[1..][i..], q);
        assert s[1..][i..] == s[i + 1..];
      }
      if exists i :: 0 <= i <= |s| && Like(s[i..], q) {
        var i :| 0 <= i <= |s| && Like(s[i..], q);
        if i > 0 {
          assert s[1..][i - 1..] == s[i..];
        }
      }
    }
  }

  /** The search pattern "%" + term + "%" of a wildcard-free term matches
      exactly the names that contain the term, ignoring ASCII case. */
  lemma LikeIsSubstring(s: string, term: string)
    requires NoWildcards(term)
    ensures Like(s, "%" + term + "%") <==> ContainsFolded(s, term)
  {
    assert "%" + term + "%" == "%" + (term + "%");
    LeadingPercent(s, term + "%");
    if Like(s, "%" + term + "%") {
      var i :| 0 <= i <= |s| && Like(s[i..], term + "%");
      PrefixLike(s[i..], term);
      MatchShift(s, term, i);
    }
    if ContainsFolded(s, term) {
      var i: nat :| i <= |s| && MatchesAt(s, term, i);
      MatchShift(s, term, i);
      PrefixLike(s[i..], term);
    }
  }

  lemma MatchShift(s: string, term: string, i: nat)
    requires i <= |s|
    ensures MatchesAt(s[i..], term, 0) <==> MatchesAt(s, term, i)
  {
  }

  /** The empty search term ("%%") matches every name. */
  lemma EmptyTermMatchesAll(s: string)
    ensures Like(s, "%" + "" + "%")
  {
    LikeIsSubstring(s, "");
    assert MatchesAt(s, "", 0);
  }

  /** LIKE ignores ASCII case on both sides: "ZELDA" is found by "zel". */
  lemma CaseInsensitiveExample()
    ensures Like("ZELDA", "%zel%")
  {
    LikeIsSubstring("ZELDA", "zel");
    assert MatchesAt("ZELDA", "zel", 0);
  }
}
