/** SQLite's LIKE operator as `search_movies` uses it: `%` matches any run of
    characters (the empty one included), `_` matches exactly one character,
    every other pattern character matches itself up to ASCII case. No ESCAPE
    clause is given, so no pattern character is ever literal-only. */
module SqlLike {

  /** Case folding as SQLite's LIKE applies it: only the ASCII letters 'A'..'Z'
      are folded; every other character, non-ASCII letters included, is kept. */
  function FoldCase(c: char): char {
    if 'A' <= c <= 'Z' then (c as int + 32) as char else c
  }

  /** Two characters match under LIKE exactly when they are equal or one is the
      upper-case ASCII form of the other. */
  lemma FoldCaseMatches(a: char, b: char)
    ensures FoldCase(a) == FoldCase(b) <==>
      a == b || ('A' <= a <= 'Z' && b as int == a as int + 32) || ('A' <= b <= 'Z' && a as int == b as int + 32)
  {
  }

  predicate IsWildcard(c: char) {
    c == '%' || c == '_'
  }

  /** A search term that LIKE reads literally. */
  predicate HasNoWildcard(t: string) {
    forall i :: 0 <= i < |t| ==> !IsWildcard(t[i])
  }

  /** `a` and `b` are the same string once ASCII case is ignored. */
  predicate EqualIgnoringCase(a: string, b: string) {
    |a| == |b| && forall i :: 0 <= i < |a| ==> FoldCase(a[i]) == FoldCase(b[i])
  }

  /** `t` occurs in `s` at offset `i`, ignoring ASCII case. */
  predicate OccursAt(s: string, t: string, i: int) {
    0 <= i && i + |t| <= |s| && EqualIgnoringCase(s[i..i + |t|], t)
  }

  predicate ContainsIgnoringCase(s: string, t: string) {
    exists i :: 0 <= i <= |s| - |t| && OccursAt(s, t, i)
  }

  /** `s LIKE p`, read left to right over the pattern. */
  predicate Like(s: string, p: string)
    decreases |s| + |p|
  {
    if p == [] then s == []
    else if p[0] == '%' then Like(s, p[1..]) || (s != [] && Like(s[1..], p))
    else if p[0] == '_' then s != [] && Like(s[1..], p[1..])
    else s != [] && FoldCase(s[0]) == FoldCase(p[0]) && Like(s[1..], p[1..])
  }

  /** The pattern `search_movies` builds around its term. */
  function ContainsPattern(term: string): string {
    "%" + term + "%"
  }

  /** A lone `%` matches every string. */
  lemma {:induction false} PercentMatchesAll(s: string)
    ensures Like(s, "%")
    decreases |s|
  {
    if s != [] {
      PercentMatchesAll(s[1..]);
    }
  }

  /** A leading `%` lets the rest of the pattern match any suffix. */
  lemma {:induction false} LeadingPercent(s: string, q: string)
    ensures Like(s, "%" + q) <==> exists k :: 0 <= k <= |s| && Like(s[k..], q)
    decreases |s|
  {
    var p := "%" + q;
    assert p[1..] == q;
    if s == [] {
      assert s[0..] == s;
    } else {
      LeadingPercent(s[1..], q);
      if Like(s, p) {
        if !Like(s, q) {
          assert Like(s[1..], p);
          var k :| 0 <= k <= |s[1..]| && Like(s[1..][k..], q);
          assert s[1..][k..] == s[k + 1..];
        } else {
          assert s[0..] == s;
        }
      } else {
        forall k | 0 <= k <= |s|
          ensures !Like(s[k..], q)
        {
          if k == 0 {
            assert s[0..] == s;
          } else {
            assert s[1..][k - 1..] == s[k..];
          }
        }
      }
    }
  }

  /** A pattern with no wildcard matches exactly the strings equal to it up to case. */
  lemma {:induction false} LiteralPattern(s: string, w: string)
    requires HasNoWildcard(w)
    ensures Like(s, w) <==> EqualIgnoringCase(s, w)
    decreases |w|
  {
    if w != [] && s != [] {
      assert HasNoWildcard(w[1..]) by {
        forall i | 0 <= i < |w[1..]| ensures !IsWildcard(w[1..][i]) {
          assert w[1..][i] == w[i + 1];
        }
      }
      LiteralPattern(s[1..], w[1..]);
      assert !IsWildcard(w[0]);
      if EqualIgnoringCase(s[1..], w[1..]) && FoldCase(s[0]) == FoldCase(w[0]) {
        forall i | 0 <= i < |s| ensures FoldCase(s[i]) == FoldCase(w[i]) {
          if i > 0 {
            assert s[1..][i - 1] == s[i] && w[1..][i - 1] == w[i];
          }
        }
      }
      if EqualIgnoringCase(s, w) {
        forall i | 0 <= i < |s[1..]| ensures FoldCase(s[1..][i]) == FoldCase(w[1..][i]) {
          assert s[1..][i] == s[i + 1] && w[1..][i] == w[i + 1];
        }
      }
    }
  }

  /** A literal followed by `%` matches exactly the strings that start with it up to case. */
  lemma {:induction false} LiteralThenPercent(s: string, w: string)
    requires HasNoWildcard(w)
    ensures Like(s, w + "%") <==> |w| <= |s| && EqualIgnoringCase(s[..|w|], w)
    decreases |w|
  {
    var p := w + "%";
    if w == [] {
      assert p == "%";
      PercentMatchesAll(s);
    } else {
      assert p[0] == w[0] && p[1..] == w[1..] + "%";
      assert !IsWildcard(w[0]);
      assert HasNoWildcard(w[1..]) by {
        forall i | 0 <= i < |w[1..]| ensures !IsWildcard(w[1..][i]) {
          assert w[1..][i] == w[i + 1];
        }
      }
      if s != [] {
        LiteralThenPercent(s[1..], w[1..]);
        if |w| <= |s| {
          var a, b := s[..|w|], s[1..][..|w| - 1];
          assert b == a[1..];
          if EqualIgnoringCase(b, w[1..]) && FoldCase(s[0]) == FoldCase(w[0]) {
            forall i | 0 <= i < |a| ensures FoldCase(a[i]) == FoldCase(w[i]) {
              if i > 0 {
                assert a[1..][i - 1] == a[i] && w[1..][i - 1] == w[i];
              }
            }
          }
          if EqualIgnoringCase(a, w) {
            assert FoldCase(a[0]) == FoldCase(w[0]);
            forall i | 0 <= i < |b| ensures FoldCase(b[i]) == FoldCase(w[1..][i]) {
              assert b[i] == a[i + 1] && w[1..][i] == w[i + 1];
            }
          }
        }
      }
    }
  }

  /** The search pattern `%term%`, for a term without wildcards, matches
      exactly the titles that contain the term, ignoring ASCII case. */
  lemma {:induction false} ContainsPatternMeansSubstring(title: string, term: string)
    requires HasNoWildcard(term)
    ensures Like(title, ContainsPattern(term)) <==> ContainsIgnoringCase(title, term)
  {
    var p := ContainsPattern(term);
    assert p == "%" + (term + "%");
    LeadingPercent(title, term + "%");
    if Like(title, p) {
      var k :| 0 <= k <= |title| && Like(title[k..], term + "%");
      LiteralThenPercent(title[k..], term);
      assert title[k..][..|term|] == title[k..k + |term|];
      assert OccursAt(title, term, k);
    }
    if ContainsIgnoringCase(title, term) {
      var k :| 0 <= k <= |title| - |term| && OccursAt(title, term, k);
      assert title[k..][..|term|] == title[k..k + |term|];
      LiteralThenPercent(title[k..], term);
    }
  }

  /** An empty search term matches every title. */
  lemma EmptyTermMatchesAll(title: string)
    ensures Like(title, ContainsPattern(""))
  {
    assert ContainsPattern("") == "%" + "%";
    LeadingPercent(title, "%");
    PercentMatchesAll(title);
    assert title[0..] == title;
  }

  /** Because the term is not escaped, a term `_` matches every non-empty
      title and no empty one. */
  lemma UnderscoreTermMatchesAnyNonEmpty(title: string)
    ensures Like(title, ContainsPattern("_")) <==> title != []
  {
    var p := ContainsPattern("_");
    assert p == "%" + "_%";
    LeadingPercent(title, "_%");
    if title != [] {
      assert "_%"[1..] == "%";
      PercentMatchesAll(title[1..]);
      assert Like(title[0..], "_%");
    } else {
      forall k | 0 <= k <= |title| ensures !Like(title[k..], "_%") { }
    }
  }
}
