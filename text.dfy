/** Text normalization (`remove_symbols`): the symbol table, Python's whitespace
    `split()` and `" ".join`, and the normalizer built from them, with the
    properties every later count relies on. */
module Text {
  import opened Counting

  /** The classifier's noise characters. In the source literal `\}` is not an
      escape sequence, so the backslash and the closing brace are both symbols;
      `\n` is a newline and the quotes are escaped quotes. */
  const Symbols: string := "~!@#$%^&*-+={\\}()[].,:;/|<>?'\"_1234567890\n"

  predicate IsSymbol(c: char)
  {
    c in Symbols
  }

  /** Python's `str.isspace`: the separators of `str.split()` without arguments. */
  predicate IsWhitespace(c: char)
  {
    var n := c as int;
    (9 <= n <= 13) || (28 <= n <= 32) || n == 0x85 || n == 0xA0 || n == 0x1680
    || (0x2000 <= n <= 0x200A) || n == 0x2028 || n == 0x2029 || n == 0x202F
    || n == 0x205F || n == 0x3000
  }

  lemma SpaceIsNotSymbol()
    ensures !IsSymbol(' ')
  {
    forall k | 0 <= k < |Symbols|
      ensures Symbols[k] != ' '
    {
    }
  }

  predicate NoSymbols(s: string)
  {
    forall k :: 0 <= k < |s| ==> !IsSymbol(s[k])
  }

  predicate NoWhitespace(s: string)
  {
    forall k :: 0 <= k < |s| ==> !IsWhitespace(s[k])
  }

  /** Whitespace at index `k` is a single plain space with a word character on
      each side. */
  predicate SpacingOkAt(s: string, k: int)
    requires 0 <= k < |s|
  {
    IsWhitespace(s[k]) ==>
      s[k] == ' ' && 0 < k < |s| - 1 && !IsWhitespace(s[k - 1]) && !IsWhitespace(s[k + 1])
  }

  /** No leading, trailing or doubled space, and no whitespace but plain spaces. */
  predicate WellSpaced(s: string)
  {
    forall k :: 0 <= k < |s| ==> SpacingOkAt(s, k)
  }

  /** `txt.replace(c, " ")` for a one-character pattern. */
  function ReplaceChar(s: string, c: char): string
  {
    seq(|s|, k requires 0 <= k < |s| => if s[k] == c then ' ' else s[k])
  }

  /** Every symbol replaced by a space: what the loop over the symbols leaves. */
  function ReplaceSymbols(s: string): string
  {
    seq(|s|, k requires 0 <= k < |s| => if IsSymbol(s[k]) then ' ' else s[k])
  }

  /** `txt.replace("  ", " ")`: each leftmost, non-overlapping pair of spaces
      becomes one space (three spaces become two). */
  function CollapseDoubleSpaces(s: string): string
    decreases |s|
  {
    if |s| >= 2 && s[0] == ' ' && s[1] == ' ' then " " + CollapseDoubleSpaces(s[2..])
    else if s == [] then []
    else [s[0]] + CollapseDoubleSpaces(s[1..])
  }

  /** The word being read, as a list of zero or one words. */
  function Flush(cur: string): seq<string>
  {
    if cur == [] then [] else [cur]
  }

  /** `split()` of `s` when the characters `cur` of a word have already been read. */
  function SplitFrom(s: string, cur: string): seq<string>
    decreases |s|
  {
    if s == [] then Flush(cur)
    else if IsWhitespace(s[0]) then Flush(cur) + SplitFrom(s[1..], [])
    else SplitFrom(s[1..], cur + [s[0]])
  }

  /** Python's `s.split()`: the maximal runs of non-whitespace characters. */
  function Split(s: string): seq<string>
  {
    SplitFrom(s, [])
  }

  /** Python's `" ".join(words)`. */
  function Join(words: seq<string>): string
  {
    if words == [] then []
    else if |words| == 1 then words[0]
    else words[0] + " " + Join(words[1..])
  }

  /** The words longer than one character, in order. */
  function KeepLong(words: seq<string>): seq<string>
  {
    if words == [] then []
    else KeepLong(words[..|words| - 1]) + (if |words[|words| - 1]| <= 1 then [] else [words[|words| - 1]])
  }

  /** Python's `list.remove(x)`: drops the first occurrence of `x`. */
  function RemoveFirst(xs: seq<string>, x: string): seq<string>
    requires x in xs
  {
    if xs[0] == x then xs[1..] else [xs[0]] + RemoveFirst(xs[1..], x)
  }

  /** What `remove_symbols` returns. */
  function Normalize(txt: string): string
  {
    Join(KeepLong(Split(CollapseDoubleSpaces(ReplaceSymbols(txt)))))
  }

  /** Python's `name.split("/")[-1]`: the part after the last slash. */
  function LastSegment(name: string): (r: string)
    ensures '/' !in r
    ensures |r| <= |name| && r == name[|name| - |r|..]
    ensures |r| == |name| || name[|name| - |r| - 1] == '/'
  {
    if name == [] then []
    else if name[|name| - 1] == '/' then []
    else LastSegment(name[..|name| - 1]) + [name[|name| - 1]]
  }

  /** The last segment of a path is the part after its final slash, whatever
      the directories before it. */
  lemma {:induction false} LastSegmentOfPath(dir: string, seg: string)
    requires '/' !in seg
    ensures LastSegment(dir + "/" + seg) == seg
    decreases |seg|
  {
    var name := dir + "/" + seg;
    if seg == [] {
      assert name[|name| - 1] == '/';
    } else {
      var init := seg[..|seg| - 1];
      assert name[..|name| - 1] == dir + "/" + init;
      LastSegmentOfPath(dir, init);
      assert init + [seg[|seg| - 1]] == seg;
    }
  }

  // ---------------------------------------------------------------------------
  // Split and join

  /** The tokens of `split()` are non-empty, free of whitespace, and occur in the
      text they were read from. */
  lemma {:induction false} SplitFromTokens(s: string, cur: string)
    requires NoWhitespace(cur)
    ensures forall w :: w in SplitFrom(s, cur) ==> w != [] && NoWhitespace(w) && Occurs(w, cur + s)
    decreases |s|
  {
    assert (cur + s)[..|cur|] == cur;
    assert OccursAt(cur, cur + s, 0);
    if s != [] {
      var next := cur + [s[0]];
      assert [s[0]] + s[1..] == s;
      assert next + s[1..] == cur + s;
      if IsWhitespace(s[0]) {
        var rest := SplitFrom(s[1..], []);
        SplitFromTokens(s[1..], []);
        assert [] + s[1..] == s[1..];
        forall w | w in rest
          ensures Occurs(w, cur + s)
        {
          OccursInConcat(w, next, s[1..]);
        }
        assert SplitFrom(s, cur) == Flush(cur) + rest;
      } else {
        SplitFromTokens(s[1..], next);
      }
    }
  }

  lemma SplitTokens(s: string)
    ensures forall w :: w in Split(s) ==> w != [] && NoWhitespace(w) && Occurs(w, s)
  {
    SplitFromTokens(s, []);
    assert [] + s == s;
  }

  /** Reading a word that contains no whitespace just extends the current word. */
  lemma {:induction false} SplitFromWord(t: string, s: string, cur: string)
    requires NoWhitespace(t)
    ensures SplitFrom(t + s, cur) == SplitFrom(s, cur + t)
    decreases |t|
  {
    if t == [] {
      assert t + s == s && cur + t == cur;
    } else {
      assert (t + s)[0] == t[0] && (t + s)[1..] == t[1..] + s;
      SplitFromWord(t[1..], s, cur + [t[0]]);
      assert cur + [t[0]] + t[1..] == cur + t;
    }
  }

  lemma {:induction false} SplitFromJoin(words: seq<string>, cur: string)
    requires words != []
    requires forall w :: w in words ==> w != [] && NoWhitespace(w)
    ensures SplitFrom(Join(words), cur) == [cur + words[0]] + words[1..]
    decreases |words|
  {
    if |words| == 1 {
      SplitFromWord(words[0], [], cur);
      assert words[0] + [] == words[0];
    } else {
      var rest := Join(words[1..]);
      assert Join(words) == words[0] + (" " + rest);
      SplitFromWord(words[0], " " + rest, cur);
      assert (" " + rest)[1..] == rest;
      assert forall w :: w in words[1..] ==> w in words;
      SplitFromJoin(words[1..], []);
      assert [] + words[1..][0] == words[1];
      assert [words[1]] + words[2..] == words[1..];
    }
  }

  /** `split()` undoes `" ".join` of non-empty, whitespace-free words. */
  lemma SplitOfJoin(words: seq<string>)
    requires forall w :: w in words ==> w != [] && NoWhitespace(w)
    ensures Split(Join(words)) == words
  {
    if words != [] {
      SplitFromJoin(words, []);
      assert [] + words[0] == words[0];
    }
  }

  /** Collapsing pairs of spaces does not change what `split()` returns. */
  lemma {:induction false} SplitFromCollapse(s: string, cur: string)
    ensures SplitFrom(CollapseDoubleSpaces(s), cur) == SplitFrom(s, cur)
    decreases |s|
  {
    if |s| >= 2 && s[0] == ' ' && s[1] == ' ' {
      var c := CollapseDoubleSpaces(s[2..]);
      assert (" " + c)[0] == ' ' && (" " + c)[1..] == c;
      SplitFromCollapse(s[2..], []);
      assert s[1..][0] == ' ' && s[1..][1..] == s[2..];
    } else if s != [] {
      var c := CollapseDoubleSpaces(s[1..]);
      assert ([s[0]] + c)[0] == s[0] && ([s[0]] + c)[1..] == c;
      SplitFromCollapse(s[1..], []);
      SplitFromCollapse(s[1..], cur + [s[0]]);
    }
  }

  lemma SplitCollapse(s: string)
    ensures Split(CollapseDoubleSpaces(s)) == Split(s)
  {
    SplitFromCollapse(s, []);
  }

  /** A joined text of clean words is well spaced and symbol-free. */
  lemma {:induction false} JoinClean(words: seq<string>)
    requires forall w :: w in words ==> w != [] && NoWhitespace(w) && NoSymbols(w)
    ensures WellSpaced(Join(words)) && NoSymbols(Join(words))
    ensures words != [] ==> |Join(words)| > 0
    decreases |words|
  {
    if |words| == 1 {
      assert words[0] in words;
    } else if |words| > 1 {
      var t, rest := words[0], Join(words[1..]);
      assert t in words;
      assert forall w :: w in words[1..] ==> w in words;
      JoinClean(words[1..]);
      SpaceIsNotSymbol();
      var r := Join(words);
      assert r == t + " " + rest;
      assert SpacingOkAt(rest, 0);
      forall k | 0 <= k < |r|
        ensures SpacingOkAt(r, k) && !IsSymbol(r[k])
      {
        if k < |t| {
          assert r[k] == t[k];
        } else if k == |t| {
          assert r[k] == ' ' && r[k - 1] == t[|t| - 1] && r[k + 1] == rest[0];
        } else {
          var j := k - |t| - 1;
          assert r[k] == rest[j];
          assert SpacingOkAt(rest, j);
          if IsWhitespace(rest[j]) {
            assert r[k - 1] == rest[j - 1] && r[k + 1] == rest[j + 1];
          }
        }
      }
    }
  }

  // ---------------------------------------------------------------------------
  // Keeping long words and list removal

  lemma {:induction false} KeepLongSpec(words: seq<string>)
    ensures forall w :: w in KeepLong(words) <==> w in words && |w| >= 2
    decreases |words|
  {
    if words != [] {
      KeepLongSpec(words[..|words| - 1]);
      assert words == words[..|words| - 1] + [words[|words| - 1]];
    }
  }

  /** Keeping the long words of a list whose words are all long changes nothing. */
  lemma {:induction false} KeepLongOfLong(words: seq<string>)
    requires forall w :: w in words ==> |w| >= 2
    ensures KeepLong(words) == words
    decreases |words|
  {
    if words != [] {
      KeepLongOfLong(words[..|words| - 1]);
      assert words == words[..|words| - 1] + [words[|words| - 1]];
    }
  }

  /** Removing the first `x` from a list whose prefix before some `x` has none
      removes exactly that `x`. */
  lemma {:induction false} RemoveFirstAt(a: seq<string>, x: string, b: seq<string>)
    requires x !in a
    ensures x in a + [x] + b && RemoveFirst(a + [x] + b, x) == a + b
    decreases |a|
  {
    if a == [] {
      assert a + [x] + b == [x] + b;
    } else {
      assert (a + [x] + b)[0] == a[0] && (a + [x] + b)[1..] == a[1..] + [x] + b;
      RemoveFirstAt(a[1..], x, b);
      assert [a[0]] + (a[1..] + b) == a + b;
    }
  }

  /** One step of the loop of `remove_symbols` that drops short words from a
      copy of the word list: when the words before `i` have been handled, the
      `i`-th word is dropped by removing its first occurrence, or kept. */
  lemma KeepLongStep(all: seq<string>, i: int)
    requires 0 <= i < |all|
    ensures var words := KeepLong(all[..i]) + all[i..];
      && (|all[i]| <= 1 ==> all[i] in words && RemoveFirst(words, all[i]) == KeepLong(all[..i + 1]) + all[i + 1..])
      && (|all[i]| > 1 ==> words == KeepLong(all[..i + 1]) + all[i + 1..])
  {
    var done := KeepLong(all[..i]);
    assert all[..i + 1][..i] == all[..i];
    assert all[i..] == [all[i]] + all[i + 1..];
    if |all[i]| <= 1 {
      KeepLongSpec(all[..i]);
      RemoveFirstAt(done, all[i], all[i + 1..]);
      assert done + [all[i]] + all[i + 1..] == done + all[i..];
    } else {
      assert done + all[i..] == (done + [all[i]]) + all[i + 1..];
    }
  }

  // ---------------------------------------------------------------------------
  // Properties of the normalizer

  lemma ReplaceSymbolsClean(txt: string)
    ensures NoSymbols(ReplaceSymbols(txt))
  {
    SpaceIsNotSymbol();
  }

  lemma OccursKeepsNoSymbols(w: string, s: string)
    requires Occurs(w, s) && NoSymbols(s)
    ensures NoSymbols(w)
  {
    var i: int :| OccursAt(w, s, i);
    assert OccursAt(w, s, i);
    assert forall k :: 0 <= k < |w| ==> w[k] == s[i + k];
  }

  /** The words `remove_symbols` keeps: the words of the symbol-free text that
      are longer than one character, in their original order. */
  function KeptWords(txt: string): seq<string>
  {
    KeepLong(Split(ReplaceSymbols(txt)))
  }

  lemma KeptWordsClean(txt: string)
    ensures Normalize(txt) == Join(KeptWords(txt))
    ensures forall w :: w in KeptWords(txt) ==>
      |w| >= 2 && NoWhitespace(w) && NoSymbols(w) && w in Split(ReplaceSymbols(txt))
  {
    var replaced := ReplaceSymbols(txt);
    SplitCollapse(replaced);
    SplitTokens(replaced);
    ReplaceSymbolsClean(txt);
    KeepLongSpec(Split(replaced));
    forall w | w in KeptWords(txt)
      ensures NoSymbols(w)
    {
      OccursKeepsNoSymbols(w, replaced);
    }
  }

  /** The words of the normalized text are exactly the words of the symbol-free
      input that are longer than one character, in their original order. */
  lemma NormalizeWords(txt: string)
    ensures Split(Normalize(txt)) == KeepLong(Split(ReplaceSymbols(txt)))
    ensures forall w :: w in Split(Normalize(txt)) ==> |w| >= 2
  {
    KeptWordsClean(txt);
    SplitOfJoin(KeptWords(txt));
  }

  /** The normalized text holds no symbol and no whitespace but single spaces
      between words. */
  lemma NormalizeClean(txt: string)
    ensures NoSymbols(Normalize(txt)) && WellSpaced(Normalize(txt))
  {
    KeptWordsClean(txt);
    JoinClean(KeptWords(txt));
  }

  /** Normalizing normalized text changes nothing. */
  lemma NormalizeIdempotent(txt: string)
    ensures Normalize(Normalize(txt)) == Normalize(txt)
  {
    var words := KeptWords(txt);
    var r := Normalize(txt);
    KeptWordsClean(txt);
    NormalizeClean(txt);
    assert ReplaceSymbols(r) == r;
    SplitCollapse(r);
    SplitOfJoin(words);
    KeepLongOfLong(words);
  }

  /** A normalized text never contains two spaces in a row. */
  lemma WellSpacedNoDoubleSpace(s: string)
    requires WellSpaced(s)
    ensures !Occurs("  ", s)
  {
    forall i | 0 <= i <= |s| - 2
      ensures !OccursAt("  ", s, i)
    {
      assert SpacingOkAt(s, i);
      assert IsWhitespace(' ');
    }
  }
}
