/** The probability estimates and the score aggregation of the classifier:
    one-word and two-word probabilities from substring counts, Python's
    half-to-even `round`, the padded word pairs of bigram mode, the interpolated
    pair score, the product of unigram mode and the three-way verdict. */
module Scoring {
  import opened Counting
  import opened Text

  /** A two-word key `(w, previous word)`, as Python's tuple. */
  type Pair = (string, string)

  /** The sentinel word bigram mode puts before and after a sentence. */
  const Boundary: string := " "

  // ---------------------------------------------------------------------------
  // Rounding

  /** Python's `round(x)` on a number: the nearest integer, ties to the even one. */
  function RoundHalfEven(x: real): int
  {
    var f := x.Floor;
    var d := x - f as real;
    if d < 0.5 then f
    else if d > 0.5 then f + 1
    else if f % 2 == 0 then f else f + 1
  }

  /** Multiplying by a positive number keeps the sign. */
  lemma SignOfProduct(a: real, b: real)
    requires b > 0.0
    ensures a * b > 0.0 <==> a > 0.0
    ensures a * b == 0.0 <==> a == 0.0
  {
    if a > 0.0 {
      assert a * b > 0.0;
    } else if a < 0.0 {
      assert (-a) * b > 0.0;
    }
  }

  /** Strictly between 0 and 1, rounding gives 1 above one half and the even 0
      at or below it. */
  lemma RoundHalfEvenUnit(q: real)
    requires 0.0 < q < 1.0
    ensures RoundHalfEven(q) == if q > 0.5 then 1 else 0
  {
    assert q.Floor == 0;
  }

  /** The ratio n / d of two counts with 0 < n < d lies strictly between 0 and 1,
      and above one half exactly when 2 n > d. */
  lemma RatioBounds(q: real, n: int, d: int)
    requires 0 < n < d && q * d as real == n as real
    ensures 0.0 < q < 1.0
    ensures q > 0.5 <==> 2 * n > d
  {
    var dr := d as real;
    assert (1.0 - q) * dr == (d - n) as real;
    SignOfProduct(1.0 - q, dr);
    SignOfProduct(q, dr);
    assert (2.0 * q - 1.0) * dr == (2 * n - d) as real;
    SignOfProduct(2.0 * q - 1.0, dr);
  }

  lemma MulNonNegative(a: real, b: real)
    requires a >= 0.0 && b >= 0.0
    ensures a * b >= 0.0
  {
  }

  lemma MulExchange(a: real, b: real, c: real)
    ensures a * (b * c) == b * (a * c)
  {
  }

  /** Division undone by multiplication. */
  lemma DivTimes(n: int, d: int)
    requires d != 0
    ensures (n as real / d as real) * d as real == n as real
  {
  }

  /** A ratio q = n / d in (0, 1] rounds to 1 exactly when it exceeds one half;
      an exact half rounds down to the even 0. */
  lemma RoundHalfEvenOfRatio(q: real, n: int, d: int)
    requires 0 < n <= d && q * d as real == n as real
    ensures RoundHalfEven(q) == if 2 * n > d then 1 else 0
  {
    if n == d {
      SignOfProduct(q - 1.0, d as real);
      assert q.Floor == 1;
    } else {
      RatioBounds(q, n, d);
      RoundHalfEvenUnit(q);
    }
  }

  // ---------------------------------------------------------------------------
  // Probabilities

  /** `text.count(w) / total`: substring occurrences of `w` over the sum of the
      filtered counts (the four-digit rounding is not modelled). */
  function UnigramProbability(text: string, total: int, w: string): real
    requires total != 0
  {
    Count(text, w) as real / total as real
  }

  /** Over a positive total, a one-word probability is never negative. */
  lemma UnigramNonNegative(text: string, total: int, w: string)
    requires total > 0
    ensures UnigramProbability(text, total, w) >= 0.0
  {
    var q := UnigramProbability(text, total, w);
    DivTimes(Count(text, w), total);
    SignOfProduct(q, total as real);
  }

  /** The entries `calculate_probability_one_word` adds for `words`. */
  function UnigramTable(text: string, total: int, words: seq<string>): (t: map<string, real>)
    requires total != 0
    ensures forall w :: w in t <==> w in words
  {
    map w | w in words :: UnigramProbability(text, total, w)
  }

  /** Adding one more word's entry extends the table by that word. */
  lemma UnigramTableSnoc(base: map<string, real>, text: string, total: int, words: seq<string>, w: string)
    requires total != 0
    ensures (base + UnigramTable(text, total, words))[w := UnigramProbability(text, total, w)]
      == base + UnigramTable(text, total, words + [w])
  {
  }

  /** The table of a single word is that word's entry. */
  lemma UnigramTableSingle(base: map<string, real>, text: string, total: int, w: string)
    requires total != 0
    ensures base[w := UnigramProbability(text, total, w)] == base + UnigramTable(text, total, [w])
  {
  }

  /** A word that does not occur in a class's text has probability 0 there. */
  lemma UnigramAbsent(text: string, total: int, w: string)
    requires total != 0 && w != [] && !Occurs(w, text)
    ensures UnigramProbability(text, total, w) == 0.0
  {
    CountPositiveIffOccurs(text, w);
  }

  /** `round(n / d)` for counts `n <= d`, or `round(0.0)` when `n` is 0. */
  function RoundedRatio(n: nat, d: nat): int
    requires n <= d
  {
    if n == 0 then RoundHalfEven(0.0) else RoundHalfEven(n as real / d as real)
  }

  /** The rounded ratio is 1 when `n` is more than half of `d`, else 0. */
  lemma RoundedRatioBinary(n: nat, d: nat)
    requires n <= d
    ensures RoundedRatio(n, d) == if n >= 1 && 2 * n > d then 1 else 0
  {
    if n == 0 {
      assert (0.0).Floor == 0;
    } else {
      var q := n as real / d as real;
      DivTimes(n, d);
      RoundHalfEvenOfRatio(q, n, d);
    }
  }

  /** The count of a pair never exceeds that of its first word. */
  lemma PairCountBound(text: string, w0: string, w1: string)
    ensures Count(text, w0 + " " + w1) <= Count(text, w0)
  {
    assert w0 + " " + w1 == w0 + (" " + w1);
    CountExtendedPattern(text, w0, " " + w1);
  }

  /** `round(count("w0 w1") / count(w0))`, or `round(0.0)` when the pair never
      occurs. */
  function BigramProbability(text: string, w0: string, w1: string): int
  {
    PairCountBound(text, w0, w1);
    RoundedRatio(Count(text, w0 + " " + w1), Count(text, w0))
  }

  /** The two-word probability is 1 when the pair accounts for more than half
      of the occurrences of `w0`, and 0 otherwise. */
  lemma BigramProbabilityBinary(text: string, w0: string, w1: string)
    ensures var c01, c0 := Count(text, w0 + " " + w1), Count(text, w0);
      BigramProbability(text, w0, w1) == if c01 >= 1 && 2 * c01 > c0 then 1 else 0
  {
    PairCountBound(text, w0, w1);
    RoundedRatioBinary(Count(text, w0 + " " + w1), Count(text, w0));
  }

  /** A pair that contains the sentinel never occurs in a normalized text: its
      key holds two spaces in a row. */
  lemma BigramBoundaryZero(text: string, w0: string, w1: string)
    requires WellSpaced(text)
    requires w0 == Boundary || w1 == Boundary
    ensures BigramProbability(text, w0, w1) == 0
  {
    var key := w0 + " " + w1;
    if w0 == Boundary {
      assert key[0..2] == "  ";
      assert OccursAt("  ", key, 0);
    } else {
      assert key[|w0|..|w0| + 2] == "  ";
      assert OccursAt("  ", key, |w0|);
    }
    WellSpacedNoDoubleSpace(text);
    CountPositiveIffOccurs(text, key);
    if Occurs(key, text) {
      OccursTransitive("  ", key, text);
    }
  }

  /** The entries `calculate_probability_two_words` adds for `pairs`: the key
      string is the pair's first word, a space, and its second word. */
  function BigramTable(text: string, pairs: seq<Pair>): (t: map<Pair, int>)
    ensures forall b :: b in t <==> b in pairs
  {
    map b | b in pairs :: BigramProbability(text, b.0, b.1)
  }

  /** Adding one more pair's entry extends the table by that pair. */
  lemma BigramTableSnoc(base: map<Pair, int>, text: string, pairs: seq<Pair>, b: Pair)
    ensures (base + BigramTable(text, pairs))[b := BigramProbability(text, b.0, b.1)]
      == base + BigramTable(text, pairs + [b])
  {
  }

  // ---------------------------------------------------------------------------
  // Bigram mode: pairing and interpolation

  /** Python's `zip(a, b)`: pairs up to the shorter length. */
  function Zip(a: seq<string>, b: seq<string>): (r: seq<Pair>)
    ensures |r| == if |a| < |b| then |a| else |b|
    ensures forall i :: 0 <= i < |r| ==> r[i] == (a[i], b[i])
  {
    if a == [] || b == [] then [] else [(a[0], b[0])] + Zip(a[1..], b[1..])
  }

  /** `[" "] + words + [" "]`. */
  function Padded(words: seq<string>): seq<string>
  {
    [Boundary] + words + [Boundary]
  }

  /** `zip(words[1:], words[:-1])`. */
  function Bigrams(words: seq<string>): seq<Pair>
    requires words != []
  {
    Zip(words[1..], words[..|words| - 1])
  }

  /** For n sentence words there are n + 1 pairs; pair i is (padded word i + 1,
      padded word i), so the first pair is (first word, sentinel) and the last is
      (sentinel, last word). */
  lemma PairingShape(words: seq<string>)
    ensures var padded := Padded(words);
      var pairs := Bigrams(padded);
      && |pairs| == |words| + 1
      && (forall i :: 0 <= i < |pairs| ==> pairs[i] == (padded[i + 1], padded[i]))
      && (words == [] ==> pairs == [(Boundary, Boundary)])
      && (words != [] ==> pairs[0] == (words[0], Boundary) && pairs[|words|] == (Boundary, words[|words| - 1]))
  {
    var padded := Padded(words);
    assert padded[1..][|words|] == Boundary;
  }

  /** Both words of every pair are padded words. */
  lemma PairedWordsPresent(words: seq<string>)
    ensures forall b :: b in Bigrams(Padded(words)) ==> b.0 in Padded(words) && b.1 in Padded(words)
  {
    PairingShape(words);
    var padded := Padded(words);
    var pairs := Bigrams(padded);
    forall b | b in pairs
      ensures b.0 in padded && b.1 in padded
    {
      var k :| 0 <= k < |pairs| && pairs[k] == b;
      assert b == (padded[k + 1], padded[k]);
    }
  }

  /** The score of the last pair, read from tables filled for the padded
      sentence over a normalized text, is the sentinel's bigram score. */
  lemma LastPairScore(text: string, total: int, words: seq<string>, oneWord: map<string, real>,
                      twoWords: map<Pair, int>, baseOne: map<string, real>, baseTwo: map<Pair, int>, draws: seq<int>)
    requires total != 0 && WellSpaced(text)
    requires oneWord == baseOne + UnigramTable(text, total, Padded(words))
    requires twoWords == baseTwo + BigramTable(text, Bigrams(Padded(words)))
    requires |draws| == |words| + 1
    ensures Padded(words)[0] in oneWord
    ensures forall b :: b in Bigrams(Padded(words)) ==> b.0 in oneWord && b in twoWords
    ensures var pairs := Bigrams(Padded(words));
      var last := pairs[|pairs| - 1];
      && |pairs| == |draws| && last in twoWords && last.0 in oneWord
      && Interpolate(twoWords[last], oneWord[last.0], draws[|pairs| - 1]) == BigramScore(text, total, draws[|draws| - 1])
  {
    PairingShape(words);
    PairedWordsPresent(words);
    var pairs := Bigrams(Padded(words));
    var last := pairs[|pairs| - 1];
    assert last.0 == Boundary;
    assert last in pairs;
    assert Boundary in Padded(words);
    BigramBoundaryZero(text, last.0, last.1);
  }

  /** A random draw k of `range(1, 100)` stands for the smoothing term k / 100. */
  predicate IsDraw(k: int)
  {
    1 <= k <= 99
  }

  /** `0.5 * P(w | previous) + 0.4 * P(w) + 0.1 * x1`. */
  function Interpolate(two: int, one: real, draw: int): real
  {
    0.5 * two as real + 0.4 * one + 0.1 * (draw as real / 100.0)
  }

  /** The score bigram mode ends with for a class: the interpolation of the
      final pair (sentinel, last word), whose two-word probability is 0, with
      the one-word probability of the sentinel and the last random draw. */
  function BigramScore(text: string, total: int, draw: int): real
    requires total != 0
  {
    Interpolate(0, UnigramProbability(text, total, Boundary), draw)
  }

  /** With equal last draws, the bigram verdict compares only how often each
      class's text contains a space, relative to its vocabulary total. */
  lemma BigramSameDraw(pos: string, mPos: int, neg: string, mNeg: int, draw: int)
    requires mPos != 0 && mNeg != 0
    ensures Decide(BigramScore(pos, mPos, draw), BigramScore(neg, mNeg, draw))
      == Decide(UnigramProbability(pos, mPos, Boundary), UnigramProbability(neg, mNeg, Boundary))
  {
    var a, b := UnigramProbability(pos, mPos, Boundary), UnigramProbability(neg, mNeg, Boundary);
    var c := 0.1 * (draw as real / 100.0);
    assert BigramScore(pos, mPos, draw) == 0.4 * a + c;
    assert BigramScore(neg, mNeg, draw) == 0.4 * b + c;
  }

  // ---------------------------------------------------------------------------
  // Unigram mode: product of the table

  /** Product of the values of `m` at `keys`, in an unspecified order. */
  ghost function ProductOver(m: map<string, real>, keys: set<string>): real
    requires keys <= m.Keys
    decreases keys
  {
    if keys == {} then 1.0
    else
      var k :| k in keys;
      m[k] * ProductOver(m, keys - {k})
  }

  ghost function ProductValues(m: map<string, real>): real
  {
    ProductOver(m, m.Keys)
  }

  /** The product does not depend on which key is taken first. */
  lemma {:induction false} ProductOverRemove(m: map<string, real>, keys: set<string>, j: string)
    requires keys <= m.Keys && j in keys
    ensures ProductOver(m, keys) == m[j] * ProductOver(m, keys - {j})
    decreases keys
  {
    var k :| k in keys && ProductOver(m, keys) == m[k] * ProductOver(m, keys - {k});
    if k != j {
      ProductOverRemove(m, keys - {k}, j);
      ProductOverRemove(m, keys - {j}, k);
      assert keys - {k} - {j} == keys - {j} - {k};
      MulExchange(m[k], m[j], ProductOver(m, keys - {k} - {j}));
    }
  }

  /** One zero entry makes the whole product zero. */
  lemma ProductZero(m: map<string, real>, w: string)
    requires w in m && m[w] == 0.0
    ensures ProductValues(m) == 0.0
  {
    ProductOverRemove(m, m.Keys, w);
  }

  lemma {:induction false} ProductOverNonNegative(m: map<string, real>, keys: set<string>)
    requires keys <= m.Keys
    requires forall w :: w in keys ==> m[w] >= 0.0
    ensures ProductOver(m, keys) >= 0.0
    decreases keys
  {
    if keys != {} {
      var k :| k in keys;
      ProductOverRemove(m, keys, k);
      ProductOverNonNegative(m, keys - {k});
      MulNonNegative(m[k], ProductOver(m, keys - {k}));
    }
  }

  /** Taking one more key into the product multiplies it by that key's value. */
  lemma ProductStep(m: map<string, real>, done: set<string>, k: string)
    requires done <= m.Keys && k in m && k !in done
    ensures ProductOver(m, done + {k}) == m[k] * ProductOver(m, done)
  {
    ProductOverRemove(m, done + {k}, k);
    assert done + {k} - {k} == done;
  }

  /** The loops `p = 1; for entry in table: p = p * value`. */
  method Product(m: map<string, real>) returns (p: real)
    ensures p == ProductValues(m)
  {
    p := 1.0;
    var rest := m.Keys;
    ghost var done: set<string> := {};
    while rest != {}
      invariant done + rest == m.Keys && done !! rest
      invariant p == ProductOver(m, done)
      decreases rest
    {
      var k :| k in rest;
      ProductStep(m, done, k);
      p := m[k] * p;
      done, rest := done + {k}, rest - {k};
    }
  }

  // ---------------------------------------------------------------------------
  // Verdict

  /** `True` (positive, "not filter this"), `False` (negative, "filter this") and
      `None` (unknown). */
  datatype Verdict = Positive | Negative | Unknown

  function Opposite(v: Verdict): Verdict
  {
    match v
    case Positive => Negative
    case Negative => Positive
    case Unknown => Unknown
  }

  /** The class with the higher score wins; equal scores give no verdict. */
  function Decide(pp: real, np: real): (v: Verdict)
    ensures v == Positive <==> np < pp
    ensures v == Negative <==> pp < np
    ensures v == Unknown <==> pp == np
  {
    if np < pp then Positive
    else if np > pp then Negative
    else Unknown
  }

  /** Exchanging the two scores exchanges the verdict. */
  lemma DecideSwap(pp: real, np: real)
    ensures Decide(np, pp) == Opposite(Decide(pp, np))
  {
  }

  /** In unigram mode, once a word absent from the positive text has entered the
      positive table, the positive class can no longer win: its product is 0
      and the negative product is never negative. */
  lemma ZeroEntryNeverPositive(pos: map<string, real>, neg: map<string, real>, w: string)
    requires w in pos && pos[w] == 0.0
    requires forall v :: v in neg ==> neg[v] >= 0.0
    ensures Decide(ProductValues(pos), ProductValues(neg)) != Positive
  {
    ProductZero(pos, w);
    ProductOverNonNegative(neg, neg.Keys);
  }

  /** Symmetrically, a zero entry in the negative table means the negative
      class can no longer win. */
  lemma ZeroEntryNeverNegative(pos: map<string, real>, neg: map<string, real>, w: string)
    requires w in neg && neg[w] == 0.0
    requires forall v :: v in pos ==> pos[v] >= 0.0
    ensures Decide(ProductValues(pos), ProductValues(neg)) != Negative
  {
    ProductZero(neg, w);
    ProductOverNonNegative(pos, pos.Keys);
  }

  /** Two empty tables give the product 1 on both sides, hence no verdict. */
  lemma EmptyTablesUnknown()
    ensures ProductValues(map[]) == 1.0
    ensures Decide(ProductValues(map[]), ProductValues(map[])) == Unknown
  {
  }
}
