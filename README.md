# Context classification of review sentences

This project models the class `Context_Classification` of
`AI_P4/src/context_classification.py`. The class is a small language-model
sentiment filter. It reads a positive and a negative corpus of movie-review
sentences and normalizes each one: symbols and digits become spaces, doubled
spaces are collapsed, and one-character words are dropped. It then counts
every distinct word of each corpus with Python's substring `str.count`, and
filters out words counted 3 times or fewer or 1000 times or more.

A query sentence is classified in one of two modes:

- **Unigram mode.** The sentence's words are added to the per-class one-word
  probability tables. Each class scores the product of its whole table.
- **Bigram mode.** The sentence is padded with a sentinel `" "` on both sides
  and paired off. The one-word and two-word tables receive an entry for every
  padded word and every pair. Each class scores the interpolated score of the
  last pair.

Either mode answers positive, negative or unknown.

The model is written as the source is: the classifier is a Dafny class whose
eight fields are the two corpora, the two vocabularies and the four
probability tables, and its methods change those fields. The loops of the
source are loops with invariants. The pure parts are functions, and the
properties are lemmas about them. The modules are:

- `Counting`: `str.count` and substring occurrence.
- `Text`: the normalizer, with `split()` and `" ".join`.
- `Vocabulary`: word counts, the frequency filter and the sum of counts.
- `Scoring`: rounding, probabilities, pairing, interpolation, product and
  verdict.
- `Classification`: the class itself.
- `Scenarios`: concrete inputs.

What the model establishes about the program as written:

- **Error cases.** Every classification raises `ZeroDivisionError` exactly
  when a vocabulary is empty, which includes the case where the filter removed
  every word. Unigram mode does not raise it for a sentence with no word left.
  When only the negative vocabulary is empty, the positive entry has already
  been written before the error.
- **Bigram verdict.** The last pair is always (sentinel, last word). Its key
  contains two spaces in a row, which a normalized corpus never contains, so
  its two-word probability is 0. Because each pair's score overwrites the
  previous one, the bigram verdict depends only on how often each corpus
  contains a space, relative to its vocabulary total, and on the last random
  draw. It never depends on the words of the sentence.
- **Two-word probabilities.** These are always 0 or 1. Python's `round` sends
  an exact half to 0.
- **Unigram score.** This is the product of the whole one-word table,
  including entries left by earlier sentences. A sentence word missing from
  one corpus means that class cannot win. A one-word probability can exceed 1,
  because substrings are counted against a total of whole-word counts.
- **Normalization** is idempotent, and its words are exactly the symbol-free
  words longer than one character.

Three consequences of the code are worth stating plainly:

- The comment of `calculate_total_probability`
  (`AI_P4/src/context_classification.py:103`) describes the score as the
  first word's probability times the product of the pair probabilities. The
  code does not compute that product: every pair's score overwrites the
  previous one, so the bigram score is the last pair's score.
- The unigram product runs over the whole one-word table, not over the
  sentence's words.
- A corpus such as "good great good film" has every count at or below 3. It
  is therefore filtered to an empty vocabulary. Against it, bigram mode
  raises `ZeroDivisionError` for every sentence, and unigram mode raises it
  for every sentence that keeps a word of two or more characters after
  normalization. A sentence that keeps no word, such as "a", writes nothing
  in unigram mode; with both tables still empty the two products are 1 and
  there is no verdict.

## Model

| member | source | states |
|---|---|---|
| Text.SpaceIsNotSymbol | AI_P4/src/context_classification.py:13 | The space that replaces symbols is not itself in the symbol table. |
| Text.LastSegment | AI_P4/src/context_classification.py:40 | The result has no slash, is a suffix of the name, and is the whole name or is preceded by a slash. |
| Text.LastSegmentOfPath | AI_P4/src/context_classification.py:40 | For a directory, a slash and a slash-free name, the last segment is that name. |
| Classification.ClassOfFile | AI_P4/src/context_classification.py:49-54 | The file is positive iff its last segment contains "pos". It is negative iff the segment lacks "pos" and contains "neg". |
| Classification.ContextClassification.constructor | AI_P4/src/context_classification.py:11-24 | Both corpora are empty and all six dictionaries are empty. The class invariants hold. |
| Classification.ContextClassification.RemoveSymbols | AI_P4/src/context_classification.py:27-36 | The symbol loop, the double-space collapse and the short-word removal loop compute exactly `Normalize`. |
| Text.KeepLongStep | AI_P4/src/context_classification.py:32-34 | Each step of the removal loop keeps "short words before i dropped, rest untouched". Removing the first occurrence drops exactly the current short word. |
| Text.RemoveFirstAt | AI_P4/src/context_classification.py:34 | `list.remove` of an element absent from the prefix before one occurrence deletes exactly that occurrence. |
| Text.KeepLongSpec | AI_P4/src/context_classification.py:32-34 | A word is kept iff it is in the list and has at least two characters. |
| Text.KeepLongOfLong | AI_P4/src/context_classification.py:32-34 | Dropping short words from a list of long words changes nothing. |
| Text.SplitTokens | AI_P4/src/context_classification.py:31 | Every token of `split()` is non-empty, free of whitespace, and occurs in the text. |
| Text.SplitCollapse | AI_P4/src/context_classification.py:30-31 | Collapsing double spaces does not change the result of `split()`. |
| Text.SplitOfJoin | AI_P4/src/context_classification.py:35 | `split()` after `" ".join` gives back the non-empty, whitespace-free words. |
| Text.JoinClean | AI_P4/src/context_classification.py:35 | Joining clean words gives a symbol-free text with single spaces between words only. It is non-empty when the list is. |
| Text.ReplaceSymbolsClean | AI_P4/src/context_classification.py:28-29 | After the replacement loop no symbol is left. |
| Text.KeptWordsClean | AI_P4/src/context_classification.py:27-36 | The result is the join of the kept words. Each kept word is long, free of whitespace and symbols, and a word of the symbol-free text. |
| Text.NormalizeWords | AI_P4/src/context_classification.py:27-36 | The words of the normalized text are the words of the symbol-free text longer than one character, in order. |
| Text.NormalizeClean | AI_P4/src/context_classification.py:27-36 | A normalized text has no symbol, no leading or trailing space and no doubled space. |
| Text.NormalizeIdempotent | AI_P4/src/context_classification.py:27-36 | Normalizing a normalized text changes nothing. |
| Text.WellSpacedNoDoubleSpace | AI_P4/src/context_classification.py:30-35 | A normalized text never contains two spaces in a row. |
| Counting.CountPositiveIffOccurs | AI_P4/src/context_classification.py:47 | `text.count(w)` of a non-empty word is positive iff the word occurs in the text. |
| Counting.CountAtMostLength | AI_P4/src/context_classification.py:47 | A count never exceeds the text's length plus one. |
| Counting.CountExtendedPattern | AI_P4/src/context_classification.py:86-91 | A longer pattern is never counted more often than its prefix. |
| Vocabulary.WordCountsSpec | AI_P4/src/context_classification.py:46-47 | The counts table has one entry per distinct word of the normalized text. Each entry is that word's substring count, at least 1, and each word has at least two characters. |
| Classification.LoadedCorpus | AI_P4/src/context_classification.py:43-47 | A loaded corpus is well spaced, and its counts table describes it. |
| Classification.ContextClassification.LoadDataset | AI_P4/src/context_classification.py:39-54 | By the file's class, that class's corpus becomes the normalized contents and its vocabulary the counts. The other class is unchanged. A file of neither class changes nothing. The invariant is preserved. |
| Vocabulary.FilterRepetitive | AI_P4/src/context_classification.py:59-64 | A word stays iff its count is strictly between 3 and 1000, with its count unchanged. |
| Vocabulary.FilterIdempotent | AI_P4/src/context_classification.py:57-71 | Filtering twice equals filtering once. |
| Classification.ContextClassification.FilterRepetitiveWords | AI_P4/src/context_classification.py:57-71 | Both vocabularies become their filtered versions, so every kept count lies in (3, 1000). The invariant is preserved. |
| Vocabulary.SumZeroIffEmpty | AI_P4/src/context_classification.py:77 | Positive counts sum to zero iff the table is empty. |
| Classification.VocabularyTotal | AI_P4/src/context_classification.py:77-80 | A vocabulary of its corpus's counts has a non-negative total, which is 0 iff the vocabulary is empty. |
| Vocabulary.Sum | AI_P4/src/context_classification.py:77 | The loop returns the sum of all values of the dictionary. |
| Scoring.UnigramNonNegative | AI_P4/src/context_classification.py:78 | Over a positive total, a one-word probability is at least 0. |
| Scoring.UnigramAbsent | AI_P4/src/context_classification.py:78 | A word absent from the corpus has probability 0. |
| Scoring.UnigramTable | AI_P4/src/context_classification.py:135-136 | The entries added for a word list are keyed by exactly the words of the list. |
| Classification.ContextClassification.CalculateProbabilityOneWord | AI_P4/src/context_classification.py:74-81 | It raises the error iff a vocabulary total is 0. The positive entry is written iff the positive total is non-zero. The negative entry is written iff the call succeeds. Both are count over total. Tables stay non-negative. |
| Classification.ContextClassification.CalculateProbabilitiesOneWord | AI_P4/src/context_classification.py:168-169 | It raises the error iff there is a word and a total is 0. On success the tables gain exactly the words' entries. On error only the first word's positive entry may have been written. |
| Scoring.RoundHalfEvenOfRatio | AI_P4/src/context_classification.py:92 | `round` of a ratio n/d in (0, 1] is 1 iff 2n > d. An exact half gives 0. |
| Scoring.RoundedRatioBinary | AI_P4/src/context_classification.py:87-92 | The rounded pair ratio is 1 iff the pair occurs and makes up more than half of its first word's occurrences, else 0. |
| Scoring.PairCountBound | AI_P4/src/context_classification.py:86-91 | The count of "w0 w1" never exceeds the count of w0, so the division is defined whenever the pair occurs. |
| Scoring.BigramProbabilityBinary | AI_P4/src/context_classification.py:84-99 | A two-word probability is 1 iff 2·count("w0 w1") > count(w0) with count("w0 w1") ≥ 1, and 0 otherwise. |
| Scoring.BigramBoundaryZero | AI_P4/src/context_classification.py:131 | A pair containing the sentinel has two-word probability 0 in a normalized corpus. |
| Classification.ContextClassification.CalculateProbabilityTwoWords | AI_P4/src/context_classification.py:84-99 | Each class's table gains the pair's rounded probability. Tables stay binary. |
| Scoring.BigramTable | AI_P4/src/context_classification.py:138-139 | The entries added for a pair list are keyed by exactly the pairs of the list. |
| Classification.ContextClassification.CalculateProbabilitiesTwoWords | AI_P4/src/context_classification.py:138-139 | Each class's two-word table gains exactly the entries of the pairs. |
| Scoring.Zip | AI_P4/src/context_classification.py:132 | `zip` has the shorter length, and its i-th pair holds both lists' i-th elements. |
| Scoring.PairingShape | AI_P4/src/context_classification.py:131-132 | n words give n + 1 pairs (padded i+1, padded i). The first pair is (first word, sentinel) and the last is (sentinel, last word). |
| Scoring.PairedWordsPresent | AI_P4/src/context_classification.py:131-132 | Both words of every pair are padded words, so their table lookups succeed. |
| Classification.ContextClassification.CalculateTotalProbability | AI_P4/src/context_classification.py:102-123 | With no pairs, it returns the first word's probability, with 0 replaced by 1. Otherwise it returns the interpolation 0.5·P2 + 0.4·P1 + 0.1·x1 of the last pair only. |
| Scoring.LastPairScore | AI_P4/src/context_classification.py:118-122 | Over tables filled for the padded sentence, every lookup succeeds. The last pair's interpolation is the sentinel's one-word score. |
| Classification.ContextClassification.BigramScores | AI_P4/src/context_classification.py:138-146 | The two-word tables gain every pair. Each class's total equals its sentinel score with its last draw. |
| Classification.ContextClassification.ClassificationByBigram | AI_P4/src/context_classification.py:126-160 | It raises the error iff a vocabulary is empty, with the exact partial updates. Otherwise all four tables gain the padded sentence's entries. The verdict compares the two classes' sentinel scores with the last draws. |
| Scoring.BigramSameDraw | AI_P4/src/context_classification.py:142-160 | With equal last draws, the bigram verdict is the comparison of the two classes' one-word probabilities of the sentinel. |
| Scoring.ProductZero | AI_P4/src/context_classification.py:172-174 | One zero entry makes the table's product 0. |
| Scoring.ProductOverNonNegative | AI_P4/src/context_classification.py:172-178 | The product of non-negative entries is non-negative. |
| Scoring.Product | AI_P4/src/context_classification.py:172-178 | The loop returns the product of all values of the table. |
| Scoring.Decide | AI_P4/src/context_classification.py:180-190 | Positive iff np < pp, negative iff pp < np, unknown iff they are equal. |
| Scoring.DecideSwap | AI_P4/src/context_classification.py:150-160 | Swapping the two scores swaps positive and negative and keeps unknown. |
| Scoring.ZeroEntryNeverPositive | AI_P4/src/context_classification.py:172-183 | A zero entry in the positive table rules out a positive verdict. |
| Scoring.ZeroEntryNeverNegative | AI_P4/src/context_classification.py:176-187 | A zero entry in the negative table rules out a negative verdict. |
| Scoring.EmptyTablesUnknown | AI_P4/src/context_classification.py:172-190 | Two empty tables both score 1, so there is no verdict. |
| Classification.ContextClassification.ClassificationByUnigram | AI_P4/src/context_classification.py:163-190 | It raises the error iff the normalized sentence has a word and a vocabulary is empty. On error the negative table is unchanged, and the positive table is unchanged or has gained the first word's entry when the positive vocabulary is non-empty. On success the tables gain exactly the sentence's words. The verdict compares the products of the whole tables. A sentence word absent from a class's corpus rules that class out. |
| Scenarios.RoundingTies | AI_P4/src/context_classification.py:92 | round(0.5) = 0, round(1.5) = round(2.5) = 2. A pair making up exactly half of its first word's occurrences scores 0. |
| Scenarios.CountIsGreedy | AI_P4/src/context_classification.py:47 | "aa" is counted twice in "aaaa" and once in "aaa". |
| Scenarios.NegativeFile | AI_P4/src/context_classification.py:40-54 | "pos/neg" names the negative class: directories are ignored. |
| Scenarios.PositiveFile | AI_P4/src/context_classification.py:40-54 | "neg/pos" names the positive class. |
| Scenarios.BothNamedIsPositive | AI_P4/src/context_classification.py:49-54 | A segment containing both "neg" and "pos" names the positive class. |
| Scenarios.UnigramAboveOne | AI_P4/src/context_classification.py:78 | With "abab" counted once, the probability of "ab" is 2. |

## Left out

- File reading: `load_dataset` opens and reads the file. The model receives the file's contents as a parameter, and the `self.file` attribute is not kept.
- Randomness: the smoothing term `random.choices(range(1,100))/100` is a parameter. It is one sequence of draws per class, each draw k in 1..99 standing for k/100.
- Printing: the messages printed with each verdict are not modelled. The verdict is a three-valued datatype standing for `True`, `False` and `None`.
- Floating point: probabilities are exact rationals, so any rounding error of the float division and product is not modelled.
- Scoring.UnigramProbability: does not model `round(·, 4)`; the probabilities are exact ratios. The program's verdicts can therefore differ from the model's. The rounding sends every probability below 0.00005 to 0.0, so a word that is rare in a large corpus zeroes that class's unigram product and decides the verdict, as `ZeroEntryNeverPositive` and `ZeroEntryNeverNegative` show for zero entries. It can also make close scores equal, which gives no verdict where the exact scores differ.
- Scoring.Product: the product runs over the table's entries in an unspecified order rather than dictionary insertion order. With exact arithmetic the order does not matter.
- Classification.ContextClassification.Valid: the invariant records what the counting methods need about the corpora (single spacing, counts of corpus words). It does not record that each corpus is exactly some file's normalized contents.
- `CalculateTotalProbability` and `RemoveSymbols` are static in the model because they read no field. The source's `self.SYMBOLS` is the constant `Text.Symbols`.
- The script part of `context_classification.py` is not part of this model: the `__main__` block (lines 198-245), with the model-type prompt and its `sys.exit` on an unknown mode (lines 210-213), the screen clearing with `os.system`, and the console loop that classifies each input line. The imports `time` and `matplotlib.pyplot` (lines 4 and 6) are unused.
