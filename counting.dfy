/** Substring occurrence and Python's `str.count`: the number of non-overlapping
    occurrences of a pattern, found by scanning from the left. Every frequency and
    probability of the classifier is built on this count. */
module Counting {

  /** `sub` occurs in `s` starting at index `i`. */
  predicate OccursAt(sub: string, s: string, i: int)
  {
    0 <= i <= |s| - |sub| && s[i..i + |sub|] == sub
  }

  /** Python's `sub in s`: `sub` occurs somewhere in `s`. */
  predicate Occurs(sub: string, s: string)
  {
    exists i | 0 <= i <= |s| - |sub| :: OccursAt(sub, s, i)
  }

  /** Python's `s.count(sub)`: leftmost, non-overlapping occurrences. An empty
      pattern is counted at every position, `|s| + 1` times. */
  function Count(s: string, sub: string): nat
    decreases |s|
  {
    if sub == [] then |s| + 1
    else if |s| < |sub| then 0
    else if s[..|sub|] == sub then 1 + Count(s[|sub|..], sub)
    else Count(s[1..], sub)
  }

  /** A non-empty pattern is counted at least once exactly when it occurs. */
  lemma {:induction false} CountPositiveIffOccurs(s: string, sub: string)
    requires sub != []
    ensures Count(s, sub) > 0 <==> Occurs(sub, s)
    decreases |s|
  {
    if |s| < |sub| {
    } else if s[..|sub|] == sub {
      assert OccursAt(sub, s, 0);
    } else {
      CountPositiveIffOccurs(s[1..], sub);
      if Occurs(sub, s[1..]) {
        var i: int :| OccursAt(sub, s[1..], i);
        assert OccursAt(sub, s[1..], i);
        assert s[i + 1..i + 1 + |sub|] == s[1..][i..i + |sub|];
        assert OccursAt(sub, s, i + 1);
      }
      if Occurs(sub, s) {
        var i: int :| OccursAt(sub, s, i);
        assert OccursAt(sub, s, i);
        assert i != 0;
        assert s[1..][i - 1..i - 1 + |sub|] == s[i..i + |sub|];
        assert OccursAt(sub, s[1..], i - 1);
      }
    }
  }

  /** Occurrence is transitive: a pattern inside an occurring string occurs too. */
  lemma OccursTransitive(a: string, b: string, c: string)
    requires Occurs(a, b) && Occurs(b, c)
    ensures Occurs(a, c)
  {
    var i: int :| OccursAt(a, b, i);
    assert OccursAt(a, b, i);
    var j: int :| OccursAt(b, c, j);
    assert OccursAt(b, c, j);
    var window, whole := c[j + i..j + i + |a|], c[j..j + |b|];
    assert forall k :: 0 <= k < |a| ==> window[k] == whole[i + k];
    assert OccursAt(a, c, j + i);
  }

  /** A string occurs in any string that ends with it or starts with it. */
  lemma OccursInConcat(w: string, a: string, b: string)
    ensures Occurs(w, b) ==> Occurs(w, a + b)
    ensures Occurs(w, a) ==> Occurs(w, a + b)
  {
    if Occurs(w, b) {
      var i: int :| OccursAt(w, b, i);
      assert OccursAt(w, b, i);
      assert (a + b)[|a| + i..|a| + i + |w|] == b[i..i + |w|];
      assert OccursAt(w, a + b, |a| + i);
    }
    if Occurs(w, a) {
      var i: int :| OccursAt(w, a, i);
      assert OccursAt(w, a, i);
      assert (a + b)[i..i + |w|] == a[i..i + |w|];
      assert OccursAt(w, a + b, i);
    }
  }

  /** No string has more counted occurrences than one plus its length. */
  lemma {:induction false} CountAtMostLength(s: string, sub: string)
    ensures Count(s, sub) <= |s| + 1
    decreases |s|
  {
    if sub == [] || |s| < |sub| {
    } else if s[..|sub|] == sub {
      CountAtMostLength(s[|sub|..], sub);
    } else {
      CountAtMostLength(s[1..], sub);
    }
  }

  /** Dropping a prefix never increases the count. */
  lemma {:induction false} CountSuffix(s: string, p: string, k: nat)
    requires p != [] && k <= |s|
    ensures Count(s[k..], p) <= Count(s, p)
    decreases |s|, 2
  {
    if k == 0 {
      assert s[0..] == s;
    } else {
      CountDropFirst(s, p);
      CountSuffix(s[1..], p, k - 1);
      assert s[1..][k - 1..] == s[k..];
    }
  }

  /** Dropping the first character never increases the count. */
  lemma {:induction false} CountDropFirst(s: string, p: string)
    requires p != [] && s != []
    ensures Count(s[1..], p) <= Count(s, p)
    decreases |s|, 1
  {
    if |s| >= |p| && s[..|p|] == p {
      CountSkip(s[1..], p, |p| - 1);
      assert s[1..][|p| - 1..] == s[|p|..];
    }
  }

  /** Skipping fewer than a pattern's length loses at most one occurrence: the
      greedy scan can have used those characters for one match only. */
  lemma {:induction false} CountSkip(x: string, p: string, j: nat)
    requires p != [] && j <= |p| && j <= |x|
    ensures Count(x, p) <= 1 + Count(x[j..], p)
    decreases |x|, 0
  {
    if j == 0 {
      assert x[0..] == x;
    } else if |x| < |p| {
    } else if x[..|p|] == p {
      CountSuffix(x[j..], p, |p| - j);
      assert x[j..][|p| - j..] == x[|p|..];
    } else {
      CountSkip(x[1..], p, j - 1);
      assert x[1..][j - 1..] == x[j..];
    }
  }

  /** A pattern is counted at most as often as any of its prefixes: each counted
      occurrence of `p + q` begins with an occurrence of `p`, and the greedy count
      of `p` is never smaller than any set of non-overlapping occurrences. */
  lemma {:induction false} CountExtendedPattern(s: string, p: string, q: string)
    ensures Count(s, p + q) <= Count(s, p)
    decreases |s|
  {
    var pq := p + q;
    if p == [] {
      CountAtMostLength(s, q);
      assert pq == q;
    } else if |s| < |pq| {
    } else if s[..|pq|] == pq {
      assert s[..|p|] == s[..|pq|][..|p|] == p;
      CountExtendedPattern(s[|pq|..], p, q);
      CountSuffix(s[|p|..], p, |q|);
      assert s[|p|..][|q|..] == s[|pq|..];
    } else {
      CountExtendedPattern(s[1..], p, q);
      CountDropFirst(s, p);
    }
  }
}
