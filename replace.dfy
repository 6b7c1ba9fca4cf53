/**
 * JavaScript's `String.prototype.replaceAll(searchValue, replaceValue)` for a
 * string `searchValue` (ECMAScript's StringIndexOf loop and GetSubstitution).
 * Matches are found left to right and never overlap; each is replaced by the
 * replacement string with its `$`-patterns expanded.
 */
module Replace {

  /**
   * GetSubstitution for one match, when the search value is a string and so
   * has no capture groups: `$$` is `$`, `$&` the matched text, `` $` `` the
   * text before the match and `$'` the text after it; every other `$` (`$1`,
   * `$<`, a trailing `$`) stands for itself.
   */
  function Expand(rep: string, before: string, matched: string, after: string): (r: string)
    ensures '$' !in rep ==> r == rep  // a replacement without `$` is inserted literally
    decreases |rep|
  {
    if rep == [] then []
    else if |rep| >= 2 && rep[0] == '$' && rep[1] == '$' then "$" + Expand(rep[2..], before, matched, after)
    else if |rep| >= 2 && rep[0] == '$' && rep[1] == '&' then matched + Expand(rep[2..], before, matched, after)
    else if |rep| >= 2 && rep[0] == '$' && rep[1] == '`' then before + Expand(rep[2..], before, matched, after)
    else if |rep| >= 2 && rep[0] == '$' && rep[1] == '\'' then after + Expand(rep[2..], before, matched, after)
    else [rep[0]] + Expand(rep[1..], before, matched, after)
  }

  /** `pat` occurs in `s` at position `p`. */
  predicate MatchAt(s: string, pat: string, p: nat)
  {
    p + |pat| <= |s| && s[p..p + |pat|] == pat
  }

  /** `pat` occurs somewhere in `s`. */
  predicate Occurs(s: string, pat: string)
  {
    exists p: nat | p <= |s| :: MatchAt(s, pat, p)
  }

  /**
   * The replacement loop on the text `t` not yet searched, `before` being
   * the text already passed (which `` $` `` refers to).
   */
  function ReplaceRest(before: string, t: string, pat: string, rep: string): string
    decreases |t|
  {
    if pat == [] then
      // the empty string matches at every position, the end included
      if t == [] then Expand(rep, before, [], [])
      else Expand(rep, before, [], t) + [t[0]] + ReplaceRest(before + [t[0]], t[1..], pat, rep)
    else if |t| < |pat| then t
    else if t[..|pat|] == pat then Expand(rep, before, pat, t[|pat|..]) + ReplaceRest(before + pat, t[|pat|..], pat, rep)
    else [t[0]] + ReplaceRest(before + [t[0]], t[1..], pat, rep)
  }

  /**
   * `s.replaceAll(pat, rep)` for a string `pat`; a text in which the
   * (non-empty) pattern does not occur comes back unchanged.
   */
  function ReplaceAll(s: string, pat: string, rep: string): (r: string)
    ensures pat != [] && !Occurs(s, pat) ==> r == s
  {
    if pat != [] && !Occurs(s, pat) then
      NoMatchRest([], s, pat, rep);
      ReplaceRest([], s, pat, rep)
    else ReplaceRest([], s, pat, rep)
  }

  lemma {:induction false} NoMatchRest(before: string, t: string, pat: string, rep: string)
    requires pat != []
    requires forall q: nat :: q <= |t| ==> !MatchAt(t, pat, q)
    ensures ReplaceRest(before, t, pat, rep) == t
    decreases |t|
  {
    if |t| >= |pat| {
      assert !MatchAt(t, pat, 0);
      assert t[0..|pat|] == t[..|pat|];
      var u := t[1..];
      forall q: nat | q <= |u| ensures !MatchAt(u, pat, q) {
        assert !MatchAt(t, pat, q + 1);
        if q + |pat| <= |u| {
          assert u[q..q + |pat|] == t[q + 1..q + 1 + |pat|];
        }
      }
      NoMatchRest(before + [t[0]], u, pat, rep);
      assert t == [t[0]] + u;
    }
  }


  lemma {:induction false} SelfReplaceRest(before: string, t: string, pat: string)
    requires '$' !in pat
    ensures ReplaceRest(before, t, pat, pat) == t
    decreases |t|
  {
    if pat == [] {
      if t != [] {
        SelfReplaceRest(before + [t[0]], t[1..], pat);
        assert t == [t[0]] + t[1..];
      }
    } else if |t| >= |pat| {
      var m := |pat|;
      if t[..m] == pat {
        SelfReplaceRest(before + pat, t[m..], pat);
        assert t == t[..m] + t[m..];
      } else {
        SelfReplaceRest(before + [t[0]], t[1..], pat);
        assert t == [t[0]] + t[1..];
      }
    }
  }

  /** Replacing a pattern by itself changes nothing, provided it holds no `$`-pattern. */
  lemma ReplaceBySelf(s: string, pat: string)
    requires '$' !in pat
    ensures ReplaceAll(s, pat, pat) == s
  {
    SelfReplaceRest([], s, pat);
  }

  /** Without `$`-patterns the replacement of the rest does not depend on the text already passed. */
  lemma {:induction false} ContextFree(b1: string, b2: string, t: string, pat: string, rep: string)
    requires '$' !in rep
    ensures ReplaceRest(b1, t, pat, rep) == ReplaceRest(b2, t, pat, rep)
    decreases |t|
  {
    if pat == [] {
      if t == [] {
      } else {
        ContextFree(b1 + [t[0]], b2 + [t[0]], t[1..], pat, rep);
      }
    } else if |t| >= |pat| {
      var m := |pat|;
      if t[..m] == pat {
        ContextFree(b1 + pat, b2 + pat, t[m..], pat, rep);
      } else {
        ContextFree(b1 + [t[0]], b2 + [t[0]], t[1..], pat, rep);
      }
    }
  }

  /** Dropping the first character shifts every match position down by one. */
  lemma NoMatchTail(u: string, pat: string, n: nat)
    requires |u| > 0
    requires forall q: nat :: q < n + 1 ==> !MatchAt(u, pat, q)
    ensures forall q: nat :: q < n ==> !MatchAt(u[1..], pat, q)
  {
    forall q: nat | q < n ensures !MatchAt(u[1..], pat, q) {
      assert !MatchAt(u, pat, q + 1);
      if q + |pat| <= |u[1..]| {
        assert u[1..][q..q + |pat|] == u[q + 1..q + 1 + |pat|];
      }
    }
  }

  /** Where no match starts, the loop copies one character and moves on. */
  lemma SkipOne(before: string, u: string, pat: string, rep: string)
    requires pat != [] && u != [] && !MatchAt(u, pat, 0)
    ensures ReplaceRest(before, u, pat, rep) == [u[0]] + ReplaceRest(before + [u[0]], u[1..], pat, rep)
  {
    if |u| < |pat| {
      assert u == [u[0]] + u[1..];
    } else {
      assert u[0..|pat|] == u[..|pat|];
    }
  }

  /** No match of `pat` starts at any of the first `n` positions of `u`. */
  predicate NoMatchBefore(u: string, pat: string, n: nat)
    decreases n
  {
    n == 0 || (u != [] && !MatchAt(u, pat, 0) && NoMatchBefore(u[1..], pat, n - 1))
  }

  lemma {:induction false} NoMatchBeforeOf(u: string, pat: string, n: nat)
    requires n <= |u|
    requires forall q: nat :: q < n ==> !MatchAt(u, pat, q)
    ensures NoMatchBefore(u, pat, n)
    decreases n
  {
    if n > 0 {
      NoMatchTail(u, pat, n - 1);
      NoMatchBeforeOf(u[1..], pat, n - 1);
    }
  }

  /** The loop copies the first `n` characters of `u` when no match starts among them. */
  lemma {:induction false} CopyUpTo(before: string, u: string, n: nat, pat: string, rep: string)
    requires pat != [] && n <= |u| && NoMatchBefore(u, pat, n)
    ensures ReplaceRest(before, u, pat, rep) == u[..n] + ReplaceRest(before + u[..n], u[n..], pat, rep)
    decreases n
  {
    if n == 0 {
      assert u[..0] == [] && u[0..] == u && before + [] == before;
    } else {
      var v, b1 := u[1..], before + [u[0]];
      calc {
        ReplaceRest(before, u, pat, rep);
      == { SkipOne(before, u, pat, rep); }
        [u[0]] + ReplaceRest(b1, v, pat, rep);
      == { CopyUpTo(b1, v, n - 1, pat, rep); }
        [u[0]] + (v[..n - 1] + ReplaceRest(b1 + v[..n - 1], v[n - 1..], pat, rep));
      == { assert b1 + v[..n - 1] == before + u[..n]; assert v[n - 1..] == u[n..]; }
        [u[0]] + (v[..n - 1] + ReplaceRest(before + u[..n], u[n..], pat, rep));
      == { assert [u[0]] + v[..n - 1] == u[..n]; }
        u[..n] + ReplaceRest(before + u[..n], u[n..], pat, rep);
      }
    }
  }

  /** A text in which no match starts before position `|a|` is copied unchanged up to there. */
  lemma CopyPrefix(before: string, a: string, t: string, pat: string, rep: string)
    requires pat != []
    requires forall q: nat :: q < |a| ==> !MatchAt(a + t, pat, q)
    ensures ReplaceRest(before, a + t, pat, rep) == a + ReplaceRest(before + a, t, pat, rep)
  {
    NoMatchBeforeOf(a + t, pat, |a|);
    CopyUpTo(before, a + t, |a|, pat, rep);
    assert (a + t)[..|a|] == a && (a + t)[|a|..] == t;
  }

  /** No match can start in a text that lacks the pattern's first character. */
  lemma FirstCharAbsent(a: string, t: string, pat: string)
    requires pat != [] && pat[0] !in a
    ensures forall q: nat :: q < |a| ==> !MatchAt(a + t, pat, q)
  {
    forall q: nat | q < |a| ensures !MatchAt(a + t, pat, q) {
      assert a[q] in a && (a + t)[q] == a[q];
    }
  }

  /**
   * The leftmost occurrence is replaced and the search resumes right after
   * it: for a match at `|a|` with no earlier one, and a replacement without
   * `$`-patterns.
   */
  lemma ReplaceFirst(a: string, pat: string, b: string, rep: string)
    requires pat != [] && '$' !in rep
    requires forall q: nat :: q < |a| ==> !MatchAt(a + pat + b, pat, q)
    ensures ReplaceAll(a + pat + b, pat, rep) == a + rep + ReplaceAll(b, pat, rep)
  {
    var t := pat + b;
    assert a + pat + b == a + t;
    CopyPrefix([], a, t, pat, rep);
    assert [] + a == a;
    assert t[..|pat|] == pat && t[|pat|..] == b;
    ContextFree(a + pat, [], b, pat, rep);
  }

  /** `"aab".replaceAll("ab", "X")` is `"aX"`: the match after a partial one is found. */
  lemma LeftmostExample(s: string, pat: string, rep: string)
    requires s == "aab" && pat == "ab" && rep == "X"
    ensures ReplaceAll(s, pat, rep) == "aX"
  {
    assert s == "a" + pat + "";
    assert !MatchAt(s, pat, 0) by {
      assert s[0..2][1] == 'a' != pat[1];
    }
    ReplaceFirst("a", pat, "", rep);
  }

  /** No match of `pat` in `u` starts before position `n` and ends after it. */
  predicate CrossFree(u: string, pat: string, n: nat)
  {
    forall q: nat :: q < n < q + |pat| ==> !MatchAt(u, pat, q)
  }

  /** Match positions in a suffix are those of the whole text, shifted by `k`. */
  lemma MatchShift(u: string, pat: string, k: nat, q: nat)
    requires k <= |u|
    ensures MatchAt(u[k..], pat, q) <==> MatchAt(u, pat, q + k)
  {
    if q + k + |pat| <= |u| {
      assert u[k..][q..q + |pat|] == u[q + k..q + k + |pat|];
    }
  }

  /** A match that lies within a text is a match in any extension of it. */
  lemma MatchExtend(m: string, b: string, pat: string, q: nat)
    requires MatchAt(m, pat, q)
    ensures MatchAt(m + b, pat, q)
  {
    assert (m + b)[q..q + |pat|] == m[q..q + |pat|];
  }

  lemma CrossFreeShift(u: string, pat: string, n: nat, k: nat)
    requires k <= n <= |u| && CrossFree(u, pat, n)
    ensures CrossFree(u[k..], pat, n - k)
  {
    forall q: nat | q < n - k < q + |pat| ensures !MatchAt(u[k..], pat, q) {
      MatchShift(u, pat, k, q);
    }
  }

  /**
   * When no match crosses the border between `a` and `t`, the loop treats
   * the two parts separately.
   */
  lemma {:induction false} SplitRest(before: string, a: string, t: string, pat: string, rep: string)
    requires pat != [] && '$' !in rep
    requires CrossFree(a + t, pat, |a|)
    ensures ReplaceRest(before, a + t, pat, rep) == ReplaceRest(before, a, pat, rep) + ReplaceRest(before + a, t, pat, rep)
    decreases |a|
  {
    var u := a + t;
    var m := |pat|;
    if a == [] {
      assert u == t && before + a == before;
    } else if MatchAt(u, pat, 0) {
      assert m <= |a|;
      assert a[..m] == u[0..m] == pat;
      var a', b1 := a[m..], before + pat;
      assert u[m..] == a' + t;
      CrossFreeShift(u, pat, |a|, m);
      calc {
        ReplaceRest(before, u, pat, rep);
        rep + ReplaceRest(b1, a' + t, pat, rep);
      == { SplitRest(b1, a', t, pat, rep); }
        rep + (ReplaceRest(b1, a', pat, rep) + ReplaceRest(b1 + a', t, pat, rep));
      == { assert b1 + a' == before + a; }
        rep + ReplaceRest(b1, a', pat, rep) + ReplaceRest(before + a, t, pat, rep);
      }
    } else {
      assert !MatchAt(a, pat, 0) by {
        if m <= |a| {
          assert a[0..m] == u[0..m];
        }
      }
      var a', b1 := a[1..], before + [a[0]];
      assert u[0] == a[0] && u[1..] == a' + t;
      CrossFreeShift(u, pat, |a|, 1);
      calc {
        ReplaceRest(before, u, pat, rep);
      == { SkipOne(before, u, pat, rep); }
        [a[0]] + ReplaceRest(b1, a' + t, pat, rep);
      == { SplitRest(b1, a', t, pat, rep); }
        [a[0]] + (ReplaceRest(b1, a', pat, rep) + ReplaceRest(b1 + a', t, pat, rep));
      == { assert b1 + a' == before + a; }
        ([a[0]] + ReplaceRest(b1, a', pat, rep)) + ReplaceRest(before + a, t, pat, rep);
      == { SkipOne(before, a, pat, rep); }
        ReplaceRest(before, a, pat, rep) + ReplaceRest(before + a, t, pat, rep);
      }
    }
  }

  /**
   * A middle part `m` that no match overlaps is kept as it is, and the text
   * on either side is replaced on its own.
   */
  lemma ReplaceAround(a: string, m: string, b: string, pat: string, rep: string)
    requires pat != [] && '$' !in rep
    requires forall q: nat :: q < |a| + |m| && |a| < q + |pat| ==> !MatchAt(a + m + b, pat, q)
    ensures ReplaceAll(a + m + b, pat, rep) == ReplaceAll(a, pat, rep) + m + ReplaceAll(b, pat, rep)
  {
    var w := a + m + b;
    assert w == a + (m + b) && w[|a|..] == m + b;
    SplitRest([], a, m + b, pat, rep);
    forall q: nat | q < |m| < q + |pat| ensures !MatchAt(m + b, pat, q) {
      MatchShift(w, pat, |a|, q);
    }
    SplitRest(a, m, b, pat, rep);
    forall q: nat | q <= |m| ensures !MatchAt(m, pat, q) {
      if MatchAt(m, pat, q) {
        MatchExtend(m, b, pat, q);
        MatchShift(w, pat, |a|, q);
      }
    }
    NoMatchRest(a, m, pat, rep);
    ContextFree(a + m, [], b, pat, rep);
    assert [] + a == a;
  }
}
