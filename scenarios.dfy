/** Concrete inputs on which the classifier behaves in ways its comments do not
    suggest. */
module Scenarios {
  import opened Counting
  import opened Text
  import opened Scoring
  import opened Classification

  /** `round` sends halves to the even neighbour: a pair that makes up exactly
      half of its first word's occurrences gets two-word probability 0. */
  lemma RoundingTies()
    ensures RoundHalfEven(0.5) == 0 && RoundHalfEven(1.5) == 2 && RoundHalfEven(2.5) == 2
    ensures RoundedRatio(1, 2) == 0 && RoundedRatio(2, 3) == 1
  {
    assert (0.5).Floor == 0 && (1.5).Floor == 1 && (2.5).Floor == 2;
    RoundedRatioBinary(1, 2);
    RoundedRatioBinary(2, 3);
  }

  /** `str.count` takes leftmost occurrences without overlap. */
  lemma CountIsGreedy()
    ensures Count("aaaa", "aa") == 2 && Count("aaa", "aa") == 1
  {
    assert "aaaa"[2..] == "aa" && "aa"[2..] == [];
    assert "aaa"[2..] == "a";
  }

  /** The class is read from the last path segment only. */
  lemma NegativeFile()
    ensures ClassOfFile("pos/neg") == Neg
  {
    LastSegmentOfPath("pos", "neg");
    assert "pos" + "/" + "neg" == "pos/neg";
    assert OccursAt("neg", "neg", 0);
    assert !OccursAt("pos", "neg", 0);
  }

  lemma PositiveFile()
    ensures ClassOfFile("neg/pos") == Pos
  {
    LastSegmentOfPath("neg", "pos");
    assert "neg" + "/" + "pos" == "neg/pos";
    assert OccursAt("pos", "pos", 0);
  }

  /** A segment naming both classes counts as positive. */
  lemma BothNamedIsPositive()
    ensures ClassOfFile("negpos") == Pos
  {
    assert OccursAt("pos", LastSegment("negpos"), 3);
  }

  /** A one-word "probability" can exceed 1: it counts substrings of the whole
      corpus but divides by the counts of whole words. In "abab" the word
      "abab" is counted once and "ab" twice. */
  lemma UnigramAboveOne()
    ensures UnigramProbability("abab", 1, "ab") == 2.0
  {
    assert "abab"[..2] == "ab" && "abab"[2..] == "ab";
    assert "ab"[..2] == "ab" && "ab"[2..] == [];
  }
}
