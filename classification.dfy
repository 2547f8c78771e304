/** The classifier object `Context_Classification`: the two normalized corpora,
    their filtered vocabularies, and the one-word and two-word probability
    tables that every classification extends. Reading the corpus files and the
    random draws of bigram mode are inputs of the methods. */
module Classification {
  import opened Counting
  import opened Text
  import opened Vocabulary
  import opened Scoring

  /** A call that either completes with a value or stops with Python's
      `ZeroDivisionError`. */
  datatype Result<T> = Ok(value: T) | ZeroDivisionError

  /** Every entry of `m` is a word of `text` holding its substring count. */
  ghost predicate CountsOf(m: map<string, int>, text: string)
  {
    forall w :: w in m ==> w in Split(text) && m[w] == Count(text, w)
  }

  /** A vocabulary built from its text has positive counts, so its total is
      zero exactly when it is empty. */
  lemma VocabularyTotal(m: map<string, int>, text: string)
    requires CountsOf(m, text)
    ensures SumValues(m) >= 0
    ensures SumValues(m) == 0 <==> m == map[]
  {
    SplitTokens(text);
    forall w | w in m
      ensures m[w] > 0
    {
      CountPositiveIffOccurs(text, w);
    }
    SumZeroIffEmpty(m);
  }

  /** The class a corpus file belongs to. */
  datatype Polarity = Pos | Neg | Neither

  /** `file_name.split("/")[-1]` decides the class: a last path segment that
      contains "pos" names the positive class, even when it also contains
      "neg"; otherwise one that contains "neg" names the negative class. */
  function ClassOfFile(fileName: string): (p: Polarity)
    ensures p == Pos <==> Occurs("pos", LastSegment(fileName))
    ensures p == Neg <==> !Occurs("pos", LastSegment(fileName)) && Occurs("neg", LastSegment(fileName))
  {
    var fileType := LastSegment(fileName);
    if Occurs("pos", fileType) then Pos
    else if Occurs("neg", fileType) then Neg
    else Neither
  }

  /** A loaded corpus is normalized and its counts table describes it. */
  lemma LoadedCorpus(contents: string)
    ensures WellSpaced(Normalize(contents))
    ensures CountsOf(WordCounts(Normalize(contents)), Normalize(contents))
  {
    NormalizeClean(contents);
  }

  ghost predicate NonNegative(m: map<string, real>)
  {
    forall w :: w in m ==> m[w] >= 0.0
  }

  ghost predicate Binary(m: map<Pair, int>)
  {
    forall b :: b in m ==> m[b] == 0 || m[b] == 1
  }

  class ContextClassification {
    /** `dataset["pos"]` and `dataset["neg"]`. */
    var datasetPos: string
    var datasetNeg: string
    var positiveWords: map<string, int>
    var negativeWords: map<string, int>
    var positiveOneWord: map<string, real>
    var negativeOneWord: map<string, real>
    var positiveTwoWords: map<Pair, int>
    var negativeTwoWords: map<Pair, int>

    /** The corpora are spaced as normalized text is (single spaces between
        words only) and each vocabulary holds the counts of words of its
        corpus. */
    ghost predicate Valid()
      reads this`datasetPos, this`datasetNeg, this`positiveWords, this`negativeWords
    {
      && WellSpaced(datasetPos)
      && WellSpaced(datasetNeg)
      && CountsOf(positiveWords, datasetPos)
      && CountsOf(negativeWords, datasetNeg)
    }

    /** One-word probabilities are never negative and two-word probabilities
        are 0 or 1. */
    ghost predicate TablesValid()
      reads this`positiveOneWord, this`negativeOneWord, this`positiveTwoWords, this`negativeTwoWords
    {
      && NonNegative(positiveOneWord)
      && NonNegative(negativeOneWord)
      && Binary(positiveTwoWords)
      && Binary(negativeTwoWords)
    }

    constructor ()
      ensures Valid() && TablesValid()
      ensures datasetPos == [] && datasetNeg == []
      ensures positiveWords == map[] && negativeWords == map[]
      ensures positiveOneWord == map[] && negativeOneWord == map[]
      ensures positiveTwoWords == map[] && negativeTwoWords == map[]
    {
      datasetPos, datasetNeg := [], [];
      positiveWords, negativeWords := map[], map[];
      positiveOneWord, negativeOneWord := map[], map[];
      positiveTwoWords, negativeTwoWords := map[], map[];
    }

    /** `remove_symbols`: every symbol becomes a space, one round of double
        spaces is collapsed, the text is split on whitespace, one-character
        words are dropped and the rest joined with single spaces. */
    static method RemoveSymbols(txt: string) returns (r: string)
      ensures r == Normalize(txt)
    {
      SpaceIsNotSymbol();
      var t := txt;
      for j := 0 to |Symbols|
        invariant |t| == |txt|
        invariant forall k :: 0 <= k < |t| ==> t[k] == if txt[k] in Symbols[..j] then ' ' else txt[k]
      {
        assert Symbols[..j + 1] == Symbols[..j] + [Symbols[j]];
        t := ReplaceChar(t, Symbols[j]);
      }
      assert Symbols[..|Symbols|] == Symbols;
      assert t == ReplaceSymbols(txt);
      t := CollapseDoubleSpaces(t);
      var all := Split(t);
      var words := all;
      for i := 0 to |all|
        invariant words == KeepLong(all[..i]) + all[i..]
      {
        KeepLongStep(all, i);
        if |all[i]| <= 1 {
          words := RemoveFirst(words, all[i]);
        }
      }
      assert all[..|all|] == all && all[|all|..] == [];
      assert words == KeepLong(all);
      r := Join(words);
    }

    /** `load_dataset`: the file's contents are normalized and counted, and
        the class the file name names receives the text and the counts; a name
        that names no class changes nothing. */
    method LoadDataset(fileName: string, contents: string)
      requires Valid()
      modifies this`datasetPos, this`datasetNeg, this`positiveWords, this`negativeWords
      ensures Valid()
      ensures ClassOfFile(fileName) == Pos ==>
        && datasetPos == Normalize(contents) && positiveWords == WordCounts(Normalize(contents))
        && datasetNeg == old(datasetNeg) && negativeWords == old(negativeWords)
      ensures ClassOfFile(fileName) == Neg ==>
        && datasetNeg == Normalize(contents) && negativeWords == WordCounts(Normalize(contents))
        && datasetPos == old(datasetPos) && positiveWords == old(positiveWords)
      ensures ClassOfFile(fileName) == Neither ==>
        && datasetPos == old(datasetPos) && positiveWords == old(positiveWords)
        && datasetNeg == old(datasetNeg) && negativeWords == old(negativeWords)
    {
      var polarity := ClassOfFile(fileName);
      var text := RemoveSymbols(contents);
      var counts := WordCounts(text);
      LoadedCorpus(contents);
      if polarity == Pos {
        positiveWords := counts;
        datasetPos := text;
      } else if polarity == Neg {
        negativeWords := counts;
        datasetNeg := text;
      }
    }

    /** `filter_repetitive_words`: both vocabularies lose the words counted 3 or
        fewer times and those counted 1000 or more times. */
    method FilterRepetitiveWords()
      requires Valid()
      modifies this`positiveWords, this`negativeWords
      ensures Valid()
      ensures positiveWords == FilterRepetitive(old(positiveWords))
      ensures negativeWords == FilterRepetitive(old(negativeWords))
      ensures forall w :: w in positiveWords ==> LowThreshold < positiveWords[w] < HighThreshold
      ensures forall w :: w in negativeWords ==> LowThreshold < negativeWords[w] < HighThreshold
    {
      positiveWords := FilterRepetitive(positiveWords);
      negativeWords := FilterRepetitive(negativeWords);
    }

    /** `calculate_probability_one_word`: the positive entry for `wi` is set
        first, then the negative one; each division by a vocabulary total of 0
        stops the call, after the positive entry when only the negative total
        is 0. */
    method CalculateProbabilityOneWord(wi: string) returns (status: Result<()>)
      requires Valid() && TablesValid()
      modifies this`positiveOneWord, this`negativeOneWord
      ensures TablesValid()
      ensures status.ZeroDivisionError? <==> SumValues(positiveWords) == 0 || SumValues(negativeWords) == 0
      ensures SumValues(positiveWords) == 0 ==> positiveOneWord == old(positiveOneWord)
      ensures SumValues(positiveWords) != 0 ==>
        positiveOneWord == old(positiveOneWord)[wi := UnigramProbability(datasetPos, SumValues(positiveWords), wi)]
      ensures status.ZeroDivisionError? ==> negativeOneWord == old(negativeOneWord)
      ensures status.Ok? ==>
        negativeOneWord == old(negativeOneWord)[wi := UnigramProbability(datasetNeg, SumValues(negativeWords), wi)]
    {
      VocabularyTotal(positiveWords, datasetPos);
      VocabularyTotal(negativeWords, datasetNeg);
      var mPos := Sum(positiveWords);
      if mPos == 0 {
        return ZeroDivisionError;
      }
      UnigramNonNegative(datasetPos, mPos, wi);
      positiveOneWord := positiveOneWord[wi := UnigramProbability(datasetPos, mPos, wi)];
      var mNeg := Sum(negativeWords);
      if mNeg == 0 {
        return ZeroDivisionError;
      }
      UnigramNonNegative(datasetNeg, mNeg, wi);
      negativeOneWord := negativeOneWord[wi := UnigramProbability(datasetNeg, mNeg, wi)];
      return Ok(());
    }

    /** `calculate_probability_two_words` for the pair `w`, in each class. */
    method CalculateProbabilityTwoWords(w: Pair)
      requires Valid() && TablesValid()
      modifies this`positiveTwoWords, this`negativeTwoWords
      ensures TablesValid()
      ensures positiveTwoWords == old(positiveTwoWords)[w := BigramProbability(datasetPos, w.0, w.1)]
      ensures negativeTwoWords == old(negativeTwoWords)[w := BigramProbability(datasetNeg, w.0, w.1)]
    {
      PairCountBound(datasetPos, w.0, w.1);
      PairCountBound(datasetNeg, w.0, w.1);
      BigramProbabilityBinary(datasetPos, w.0, w.1);
      BigramProbabilityBinary(datasetNeg, w.0, w.1);
      var pairPos := Count(datasetPos, w.0 + " " + w.1);
      var ratioPos: real;
      if pairPos == 0 {
        ratioPos := 0.0;
      } else {
        ratioPos := pairPos as real / Count(datasetPos, w.0) as real;
      }
      positiveTwoWords := positiveTwoWords[w := RoundHalfEven(ratioPos)];
      var pairNeg := Count(datasetNeg, w.0 + " " + w.1);
      var ratioNeg: real;
      if pairNeg == 0 {
        ratioNeg := 0.0;
      } else {
        ratioNeg := pairNeg as real / Count(datasetNeg, w.0) as real;
      }
      negativeTwoWords := negativeTwoWords[w := RoundHalfEven(ratioNeg)];
    }

    /** `calculate_total_probability`: the start value (the first word's
        probability, or 1 in place of 0) is overwritten by every pair's
        interpolated score, so only the last pair's score is returned. Draw k
        stands for the random term k / 100 of pair k. */
    static method CalculateTotalProbability(bigrams: seq<Pair>, words: seq<string>, oneWord: map<string, real>,
                                     twoWords: map<Pair, int>, draws: seq<int>) returns (probability: real)
      requires words != [] && words[0] in oneWord
      requires forall b :: b in bigrams ==> b.0 in oneWord && b in twoWords
      requires |draws| == |bigrams|
      requires forall k :: 0 <= k < |draws| ==> IsDraw(draws[k])
      ensures bigrams == [] ==> probability == if oneWord[words[0]] == 0.0 then 1.0 else oneWord[words[0]]
      ensures bigrams != [] ==>
        var last := bigrams[|bigrams| - 1];
        probability == Interpolate(twoWords[last], oneWord[last.0], draws[|bigrams| - 1])
    {
      probability := oneWord[words[0]];
      if probability == 0.0 {
        probability := 1.0;
      }
      for i := 0 to |bigrams|
        invariant i == 0 ==> probability == if oneWord[words[0]] == 0.0 then 1.0 else oneWord[words[0]]
        invariant i > 0 ==> probability == Interpolate(twoWords[bigrams[i - 1]], oneWord[bigrams[i - 1].0], draws[i - 1])
      {
        var x1 := draws[i] as real / 100.0;
        var x2 := oneWord[bigrams[i].0];
        var x3 := twoWords[bigrams[i]];
        probability := 0.5 * x3 as real + 0.4 * x2 + 0.1 * x1;
      }
    }

    /** The loop `for w in words: self.calculate_probability_one_word(w)` of
        both classification modes. The vocabulary totals do not change inside
        the loop, so a division by zero can only happen on the first word. */
    method CalculateProbabilitiesOneWord(words: seq<string>) returns (status: Result<()>)
      requires Valid() && TablesValid()
      modifies this`positiveOneWord, this`negativeOneWord
      ensures TablesValid()
      ensures status.ZeroDivisionError? <==>
        words != [] && (SumValues(positiveWords) == 0 || SumValues(negativeWords) == 0)
      ensures words == [] ==> positiveOneWord == old(positiveOneWord) && negativeOneWord == old(negativeOneWord)
      ensures status.Ok? && words != [] ==>
        && SumValues(positiveWords) != 0 && SumValues(negativeWords) != 0
        && positiveOneWord == old(positiveOneWord) + UnigramTable(datasetPos, SumValues(positiveWords), words)
        && negativeOneWord == old(negativeOneWord) + UnigramTable(datasetNeg, SumValues(negativeWords), words)
      ensures status.ZeroDivisionError? && SumValues(positiveWords) == 0 ==>
        positiveOneWord == old(positiveOneWord) && negativeOneWord == old(negativeOneWord)
      ensures status.ZeroDivisionError? && SumValues(positiveWords) != 0 ==>
        && positiveOneWord == old(positiveOneWord)[words[0] := UnigramProbability(datasetPos, SumValues(positiveWords), words[0])]
        && negativeOneWord == old(negativeOneWord)
    {
      ghost var mPos, mNeg := SumValues(positiveWords), SumValues(negativeWords);
      status := Ok(());
      for i := 0 to |words|
        invariant TablesValid()
        invariant status.Ok?
        invariant i == 0 ==> positiveOneWord == old(positiveOneWord) && negativeOneWord == old(negativeOneWord)
        invariant i > 0 ==>
          && mPos != 0 && mNeg != 0
          && positiveOneWord == old(positiveOneWord) + UnigramTable(datasetPos, mPos, words[..i])
          && negativeOneWord == old(negativeOneWord) + UnigramTable(datasetNeg, mNeg, words[..i])
      {
        status := CalculateProbabilityOneWord(words[i]);
        if status.ZeroDivisionError? {
          return;
        }
        assert words[..i + 1] == words[..i] + [words[i]];
        if i == 0 {
          assert words[..1] == [words[0]];
          UnigramTableSingle(old(positiveOneWord), datasetPos, mPos, words[0]);
          UnigramTableSingle(old(negativeOneWord), datasetNeg, mNeg, words[0]);
        } else {
          UnigramTableSnoc(old(positiveOneWord), datasetPos, mPos, words[..i], words[i]);
          UnigramTableSnoc(old(negativeOneWord), datasetNeg, mNeg, words[..i], words[i]);
        }
      }
      assert words[..|words|] == words;
    }

    /** The loop `for b in bigram: self.calculate_probability_two_words(b)` of
        bigram mode. */
    method CalculateProbabilitiesTwoWords(bigrams: seq<Pair>)
      requires Valid() && TablesValid()
      modifies this`positiveTwoWords, this`negativeTwoWords
      ensures TablesValid()
      ensures positiveTwoWords == old(positiveTwoWords) + BigramTable(datasetPos, bigrams)
      ensures negativeTwoWords == old(negativeTwoWords) + BigramTable(datasetNeg, bigrams)
    {
      for i := 0 to |bigrams|
        invariant TablesValid()
        invariant positiveTwoWords == old(positiveTwoWords) + BigramTable(datasetPos, bigrams[..i])
        invariant negativeTwoWords == old(negativeTwoWords) + BigramTable(datasetNeg, bigrams[..i])
      {
        CalculateProbabilityTwoWords(bigrams[i]);
        BigramTableSnoc(old(positiveTwoWords), datasetPos, bigrams[..i], bigrams[i]);
        BigramTableSnoc(old(negativeTwoWords), datasetNeg, bigrams[..i], bigrams[i]);
        assert bigrams[..i + 1] == bigrams[..i] + [bigrams[i]];
      }
      assert bigrams[..|bigrams|] == bigrams;
    }

    /** `classification_by_bigram`. The sentence is normalized and padded with
        the sentinel on both sides; every padded word gets a one-word entry and
        every pair a two-word entry. Each class's score is that of the last
        pair, (sentinel, last word), whose two-word probability is 0 in a
        normalized corpus: the verdict depends on the corpora and the last
        draws only, never on the words of the sentence. */
    method ClassificationByBigram(sentence: string, drawsPos: seq<int>, drawsNeg: seq<int>) returns (r: Result<Verdict>)
      requires Valid() && TablesValid()
      requires |drawsPos| == |Split(Normalize(sentence))| + 1 && |drawsNeg| == |drawsPos|
      requires forall k :: 0 <= k < |drawsPos| ==> IsDraw(drawsPos[k])
      requires forall k :: 0 <= k < |drawsNeg| ==> IsDraw(drawsNeg[k])
      modifies this`positiveOneWord, this`negativeOneWord, this`positiveTwoWords, this`negativeTwoWords
      ensures TablesValid()
      ensures r.ZeroDivisionError? <==> positiveWords == map[] || negativeWords == map[]
      ensures r.Ok? ==>
        && SumValues(positiveWords) != 0 && SumValues(negativeWords) != 0
        && r.value == Decide(BigramScore(datasetPos, SumValues(positiveWords), drawsPos[|drawsPos| - 1]),
                             BigramScore(datasetNeg, SumValues(negativeWords), drawsNeg[|drawsNeg| - 1]))
      ensures r.Ok? ==>
        var padded := Padded(Split(Normalize(sentence)));
        && SumValues(positiveWords) != 0 && SumValues(negativeWords) != 0
        && positiveOneWord == old(positiveOneWord) + UnigramTable(datasetPos, SumValues(positiveWords), padded)
        && negativeOneWord == old(negativeOneWord) + UnigramTable(datasetNeg, SumValues(negativeWords), padded)
        && positiveTwoWords == old(positiveTwoWords) + BigramTable(datasetPos, Bigrams(padded))
        && negativeTwoWords == old(negativeTwoWords) + BigramTable(datasetNeg, Bigrams(padded))
      ensures r.ZeroDivisionError? ==>
        && positiveTwoWords == old(positiveTwoWords) && negativeTwoWords == old(negativeTwoWords)
        && negativeOneWord == old(negativeOneWord)
        && (positiveWords == map[] ==> positiveOneWord == old(positiveOneWord))
        && (positiveWords != map[] ==>
              && SumValues(positiveWords) != 0
              && positiveOneWord == old(positiveOneWord)[Boundary := UnigramProbability(datasetPos, SumValues(positiveWords), Boundary)])
    {
      VocabularyTotal(positiveWords, datasetPos);
      VocabularyTotal(negativeWords, datasetNeg);
      var text := RemoveSymbols(sentence);
      var words := Padded(Split(text));
      var status := CalculateProbabilitiesOneWord(words);
      if status.ZeroDivisionError? {
        return ZeroDivisionError;
      }
      var pp, np := BigramScores(Split(text), drawsPos, drawsNeg, old(positiveOneWord), old(negativeOneWord));
      r := Ok(Decide(pp, np));
    }

    /** The second half of bigram mode, once the one-word tables hold the padded
        sentence: a two-word entry for every pair, then each class's total. */
    method BigramScores(sentenceWords: seq<string>, drawsPos: seq<int>, drawsNeg: seq<int>,
                        ghost baseOnePos: map<string, real>, ghost baseOneNeg: map<string, real>)
      returns (pp: real, np: real)
      requires Valid() && TablesValid()
      requires SumValues(positiveWords) != 0 && SumValues(negativeWords) != 0
      requires positiveOneWord == baseOnePos + UnigramTable(datasetPos, SumValues(positiveWords), Padded(sentenceWords))
      requires negativeOneWord == baseOneNeg + UnigramTable(datasetNeg, SumValues(negativeWords), Padded(sentenceWords))
      requires |drawsPos| == |sentenceWords| + 1 && |drawsNeg| == |drawsPos|
      requires forall k :: 0 <= k < |drawsPos| ==> IsDraw(drawsPos[k])
      requires forall k :: 0 <= k < |drawsNeg| ==> IsDraw(drawsNeg[k])
      modifies this`positiveTwoWords, this`negativeTwoWords
      ensures TablesValid()
      ensures positiveTwoWords == old(positiveTwoWords) + BigramTable(datasetPos, Bigrams(Padded(sentenceWords)))
      ensures negativeTwoWords == old(negativeTwoWords) + BigramTable(datasetNeg, Bigrams(Padded(sentenceWords)))
      ensures pp == BigramScore(datasetPos, SumValues(positiveWords), drawsPos[|drawsPos| - 1])
      ensures np == BigramScore(datasetNeg, SumValues(negativeWords), drawsNeg[|drawsNeg| - 1])
    {
      var words := Padded(sentenceWords);
      var bigrams := Bigrams(words);
      CalculateProbabilitiesTwoWords(bigrams);
      LastPairScore(datasetPos, SumValues(positiveWords), sentenceWords, positiveOneWord, positiveTwoWords,
                    baseOnePos, old(positiveTwoWords), drawsPos);
      LastPairScore(datasetNeg, SumValues(negativeWords), sentenceWords, negativeOneWord, negativeTwoWords,
                    baseOneNeg, old(negativeTwoWords), drawsNeg);
      pp := CalculateTotalProbability(bigrams, words, positiveOneWord, positiveTwoWords, drawsPos);
      np := CalculateTotalProbability(bigrams, words, negativeOneWord, negativeTwoWords, drawsNeg);
    }

    /** `classification_by_unigram`. The sentence's words are added to the
        one-word tables, and each class's score is the product of its WHOLE
        table, entries left by earlier sentences included. A sentence word
        absent from one class's corpus zeroes that class's product, so that
        class cannot win. */
    method ClassificationByUnigram(sentence: string) returns (r: Result<Verdict>)
      requires Valid() && TablesValid()
      modifies this`positiveOneWord, this`negativeOneWord
      ensures TablesValid()
      ensures r.ZeroDivisionError? <==>
        Split(Normalize(sentence)) != [] && (positiveWords == map[] || negativeWords == map[])
      ensures Split(Normalize(sentence)) == [] ==>
        positiveOneWord == old(positiveOneWord) && negativeOneWord == old(negativeOneWord)
      ensures r.Ok? && Split(Normalize(sentence)) != [] ==>
        && SumValues(positiveWords) != 0 && SumValues(negativeWords) != 0
        && positiveOneWord == old(positiveOneWord) + UnigramTable(datasetPos, SumValues(positiveWords), Split(Normalize(sentence)))
        && negativeOneWord == old(negativeOneWord) + UnigramTable(datasetNeg, SumValues(negativeWords), Split(Normalize(sentence)))
      ensures r.ZeroDivisionError? ==>
        && negativeOneWord == old(negativeOneWord)
        && (positiveWords == map[] ==> positiveOneWord == old(positiveOneWord))
        && (positiveWords != map[] ==>
              var first := Split(Normalize(sentence))[0];
              && SumValues(positiveWords) != 0
              && positiveOneWord == old(positiveOneWord)[first := UnigramProbability(datasetPos, SumValues(positiveWords), first)])
      ensures r.Ok? ==> r.value == Decide(ProductValues(positiveOneWord), ProductValues(negativeOneWord))
      ensures r.Ok? && (exists w :: w in Split(Normalize(sentence)) && !Occurs(w, datasetPos)) ==> r.value != Positive
      ensures r.Ok? && (exists w :: w in Split(Normalize(sentence)) && !Occurs(w, datasetNeg)) ==> r.value != Negative
    {
      VocabularyTotal(positiveWords, datasetPos);
      VocabularyTotal(negativeWords, datasetNeg);
      var text := RemoveSymbols(sentence);
      var words := Split(text);
      var status := CalculateProbabilitiesOneWord(words);
      if status.ZeroDivisionError? {
        return ZeroDivisionError;
      }
      var pp := Product(positiveOneWord);
      var np := Product(negativeOneWord);
      r := Ok(Decide(pp, np));
      SplitTokens(text);
      if w :| w in words && !Occurs(w, datasetPos) {
        UnigramAbsent(datasetPos, SumValues(positiveWords), w);
        ZeroEntryNeverPositive(positiveOneWord, negativeOneWord, w);
      }
      if w :| w in words && !Occurs(w, datasetNeg) {
        UnigramAbsent(datasetNeg, SumValues(negativeWords), w);
        ZeroEntryNeverNegative(positiveOneWord, negativeOneWord, w);
      }
    }
  }
}
