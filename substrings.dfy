/** Substring search on strings, the `contains` test the classifier is built on. */
module Substrings {

  /** True when `p` appears in `s` starting at position `i`: the reference meaning of "occurs". */
  predicate OccursAt(s: string, p: string, i: int)
  {
    0 <= i && i + |p| <= |s| && s[i..i + |p|] == p
  }

  /** True when `s` begins with `p`. */
  predicate StartsWith(s: string, p: string)
  {
    |p| <= |s| && s[..|p|] == p
  }

  /** Substring search: `p` starts at the front of `s` or somewhere in its tail. */
  predicate Contains(s: string, p: string)
    decreases |s|
  {
    StartsWith(s, p) || (|s| > 0 && Contains(s[1..], p))
  }

  /** An occurrence of `p` at any position is found by the search. */
  lemma {:induction false} OccursContains(s: string, p: string, i: int)
    requires OccursAt(s, p, i)
    ensures Contains(s, p)
    decreases i
  {
    if i == 0 {
      assert StartsWith(s, p);
    } else {
      assert s[1..][i - 1..i - 1 + |p|] == s[i..i + |p|];
      OccursContains(s[1..], p, i - 1);
    }
  }

  /** Whatever the search finds occurs at some position of `s`. */
  lemma {:induction false} ContainsOccurs(s: string, p: string)
    requires Contains(s, p)
    ensures exists i :: OccursAt(s, p, i)
    decreases |s|
  {
    if StartsWith(s, p) {
      assert OccursAt(s, p, 0);
    } else {
      ContainsOccurs(s[1..], p);
      var j :| OccursAt(s[1..], p, j);
      assert s[j + 1..j + 1 + |p|] == s[1..][j..j + |p|];
      assert OccursAt(s, p, j + 1);
    }
  }

  /** The search finds `p` exactly when `p` occurs at some position of `s`. */
  lemma ContainsIffOccurs(s: string, p: string)
    ensures Contains(s, p) <==> exists i :: OccursAt(s, p, i)
  {
    if Contains(s, p) {
      ContainsOccurs(s, p);
    }
    if exists i :: OccursAt(s, p, i) {
      var i :| OccursAt(s, p, i);
      OccursContains(s, p, i);
    }
  }

  /** Whatever surrounds it, a string containing `p` verbatim is found by the search. */
  lemma ContainsInfix(pre: string, p: string, post: string)
    ensures Contains(pre + p + post, p)
  {
    var s := pre + p + post;
    assert s[|pre|..|pre| + |p|] == p;
    assert OccursAt(s, p, |pre|);
    ContainsIffOccurs(s, p);
  }

  /** When no position that could start an occurrence holds the first character of `p`, `s` does not contain `p`. */
  lemma {:induction false} NotContainsByFirst(s: string, p: string)
    requires |p| > 0
    requires forall i :: 0 <= i <= |s| - |p| ==> s[i] != p[0]
    ensures !Contains(s, p)
    decreases |s|
  {
    if |s| > 0 {
      forall i | 0 <= i <= |s[1..]| - |p|
        ensures s[1..][i] != p[0]
      {
        assert s[1..][i] == s[i + 1];
      }
      NotContainsByFirst(s[1..], p);
      if |p| <= |s| {
        assert s[..|p|][0] != p[0];
      }
    }
  }
}
