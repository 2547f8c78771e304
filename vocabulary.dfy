/** Word-frequency tables of a corpus: the counts `load_dataset` builds, the
    filter that drops too rare and too frequent words, and the sum of a table's
    counts (Python's `sum(d.values())`). */
module Vocabulary {
  import opened Counting
  import opened Text

  /** Counts of 3 or less and of 1000 or more make a word repetitive. */
  const LowThreshold: int := 3
  const HighThreshold: int := 1000

  /** `dict(zip(words, [text.count(w) for w in words]))` over the distinct words
      of `text`. */
  function WordCounts(text: string): map<string, int>
  {
    map w | w in Split(text) :: Count(text, w)
  }

  /** The keys of the high list plus the keys of the low list. */
  function RepetitiveKeys(m: map<string, int>): set<string>
  {
    (set w | w in m && m[w] >= HighThreshold) + (set w | w in m && m[w] <= LowThreshold)
  }

  /** The entries whose key is not in the repetitive lists. */
  function FilterRepetitive(m: map<string, int>): (r: map<string, int>)
    ensures forall w :: w in r <==> w in m && LowThreshold < m[w] < HighThreshold
    ensures forall w :: w in r ==> r[w] == m[w]
  {
    map w | w in m && w !in RepetitiveKeys(m) :: m[w]
  }

  /** Filtering an already filtered table changes nothing. */
  lemma FilterIdempotent(m: map<string, int>)
    ensures FilterRepetitive(FilterRepetitive(m)) == FilterRepetitive(m)
  {
    var once := FilterRepetitive(m);
    assert FilterRepetitive(once).Keys == once.Keys;
  }

  /** The counts `load_dataset` stores: one entry per distinct word of the text,
      holding that word's substring count, which is at least one; for a
      normalized text every word is longer than one character. */
  lemma WordCountsSpec(raw: string)
    ensures var text := Normalize(raw);
      var m := WordCounts(text);
      && (forall w :: w in m <==> w in Split(text))
      && (forall w :: w in m ==> m[w] == Count(text, w) >= 1 && |w| >= 2)
  {
    var text := Normalize(raw);
    SplitTokens(text);
    NormalizeWords(raw);
    forall w | w in Split(text)
      ensures Count(text, w) >= 1
    {
      CountPositiveIffOccurs(text, w);
    }
  }

  // ---------------------------------------------------------------------------
  // Sum of the counts

  /** Sum of the values of `m` at `keys`, in an unspecified order. */
  ghost function SumOver(m: map<string, int>, keys: set<string>): int
    requires keys <= m.Keys
    decreases keys
  {
    if keys == {} then 0
    else
      var k :| k in keys;
      m[k] + SumOver(m, keys - {k})
  }

  ghost function SumValues(m: map<string, int>): int
  {
    SumOver(m, m.Keys)
  }

  /** The sum does not depend on which key is taken first. */
  lemma {:induction false} SumOverRemove(m: map<string, int>, keys: set<string>, j: string)
    requires keys <= m.Keys && j in keys
    ensures SumOver(m, keys) == m[j] + SumOver(m, keys - {j})
    decreases keys
  {
    var k :| k in keys && SumOver(m, keys) == m[k] + SumOver(m, keys - {k});
    if k != j {
      SumOverRemove(m, keys - {k}, j);
      SumOverRemove(m, keys - {j}, k);
      assert keys - {k} - {j} == keys - {j} - {k};
    }
  }

  /** Over positive values, the sum is zero exactly when there is no key. */
  lemma {:induction false} SumOverPositive(m: map<string, int>, keys: set<string>)
    requires keys <= m.Keys
    requires forall w :: w in keys ==> m[w] > 0
    ensures SumOver(m, keys) >= 0
    ensures SumOver(m, keys) == 0 <==> keys == {}
    decreases keys
  {
    if keys != {} {
      var k :| k in keys && SumOver(m, keys) == m[k] + SumOver(m, keys - {k});
      SumOverPositive(m, keys - {k});
    }
  }

  /** A table of positive counts sums to zero only when it is empty: after the
      filter this is the case where every word was filtered out. */
  lemma SumZeroIffEmpty(m: map<string, int>)
    requires forall w :: w in m ==> m[w] > 0
    ensures SumValues(m) >= 0
    ensures SumValues(m) == 0 <==> m == map[]
  {
    SumOverPositive(m, m.Keys);
    if m.Keys == {} {
      assert m == map[];
    }
  }

  /** Python's `sum(m.values())`. */
  method Sum(m: map<string, int>) returns (total: int)
    ensures total == SumValues(m)
  {
    total := 0;
    var rest := m.Keys;
    while rest != {}
      invariant rest <= m.Keys
      invariant total + SumOver(m, rest) == SumValues(m)
      decreases rest
    {
      var k :| k in rest;
      SumOverRemove(m, rest, k);
      total := total + m[k];
      rest := rest - {k};
    }
  }
}
